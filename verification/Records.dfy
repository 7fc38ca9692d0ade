/** Resource records and the library calls the name server makes on them.

    The DNS library, the hash function and the lower-casing of names are not
    part of this model: they appear as the four functions of a `Lib`, about
    which only the print/parse round trip is ever assumed. */
module Records {

  datatype Option<+T> = None | Some(value: T)

  /** The dynamic type of a parsed record, as far as resolution inspects it. */
  datatype RData = CName(target: string) | NameServer(host: string) | Other(text: string)

  datatype RR = RR(name: string, rrType: nat, ttl: nat, data: RData)

  /** Outcome of parsing a record string: an error, no error but no record
      (a blank or comment line), or a record. */
  datatype Parsed = Bad | Blank | Good(rr: RR)

  datatype Question = Question(name: string, qType: nat)

  newtype uint64 = x: int | 0 <= x < 0x1_0000_0000_0000_0000

  datatype Lib = Lib(
    hash: string -> uint64,
    lower: string -> string,
    parse: string -> Parsed,
    format: RR -> string)
  {
    /** Parsing what was printed gives the record back. */
    ghost predicate RoundTrips() {
      forall rr :: parse(format(rr)) == Good(rr)
    }
  }

  const TYPE_A: nat := 1
  const TYPE_NS: nat := 2
  const TYPE_CNAME: nat := 5

  /** Each page covers 2^PAGE_SIZE consecutive hash values. */
  const PAGE_SPAN: nat := 0x1_0000_0000

  /** The upper half of the hash. */
  function PageOf(lib: Lib, name: string): (p: nat)
    ensures p < 0x1_0000_0000
    ensures p * 0x1_0000_0000 <= lib.hash(name) as nat < (p + 1) * 0x1_0000_0000
  {
    lib.hash(name) as nat / PAGE_SPAN
  }
}
