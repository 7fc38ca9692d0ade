/** The front server: questions are batched by the cluster their name is located
    at, every batch goes to its cluster, and the replies are merged as they come. */
module DirectQuery {
  import opened Records
  import opened Lru
  import opened Permutation

  datatype ClusterReply = ClusterReply(answer: seq<RR>, ns: seq<RR>, extra: seq<RR>)

  /** What sending to the servers of a cluster gives. Without any server there is
      neither a reply nor an error, and the worker dereferences nil. */
  datatype SendResult = Replied(reply: ClusterReply) | Failed | Nothing

  // ----- batching -----

  /** The questions located at `token`, in order. */
  function Located(locate: string -> string, qs: seq<Question>, token: string): seq<Question> {
    if qs == [] then []
    else
      var q := qs[|qs| - 1];
      Located(locate, qs[..|qs| - 1], token) + if locate(q.name) == token then [q] else []
  }

  lemma {:induction false} LocatedMembers(locate: string -> string, qs: seq<Question>, token: string, q: Question)
    ensures q in Located(locate, qs, token) <==> q in qs && locate(q.name) == token
  {
    if qs != [] {
      var n := |qs| - 1;
      assert qs == qs[..n] + [qs[n]];
      LocatedMembers(locate, qs[..n], token, q);
    }
  }

  /** They keep their order, and none is missing. */
  lemma {:induction false} LocatedPositions(locate: string -> string, qs: seq<Question>, token: string)
    returns (pos: seq<nat>)
    ensures forall i, j | 0 <= i < j < |pos| :: pos[i] < pos[j]
    ensures forall p: nat :: p in pos <==> p < |qs| && locate(qs[p].name) == token
    ensures |Located(locate, qs, token)| == |pos|
      && forall i | 0 <= i < |pos| :: pos[i] < |qs| && Located(locate, qs, token)[i] == qs[pos[i]]
  {
    pos := [];
    if qs != [] {
      var n := |qs| - 1;
      var front := LocatedPositions(locate, qs[..n], token);
      pos := front + if locate(qs[n].name) == token then [n] else [];
      forall p: nat
        ensures p in pos <==> p < |qs| && locate(qs[p].name) == token
      {
        assert p in pos <==> p in front || (p == n && locate(qs[n].name) == token);
      }
    }
  }

  /** One batch for every token that some question is located at; a batch holds
      exactly the questions located there, in the order asked. */
  method BatchQuestions(qs: seq<Question>, locate: string -> string) returns (batchMap: map<string, seq<Question>>)
    ensures forall t :: t in batchMap <==> Located(locate, qs, t) != []
    ensures forall t | t in batchMap :: batchMap[t] == Located(locate, qs, t)
  {
    batchMap := map[];
    for i := 0 to |qs|
      invariant forall t :: t in batchMap <==> Located(locate, qs[..i], t) != []
      invariant forall t | t in batchMap :: batchMap[t] == Located(locate, qs[..i], t)
    {
      assert qs[..i + 1][..i] == qs[..i];
      var token := locate(qs[i].name);
      if token !in batchMap {
        batchMap := batchMap[token := []];
      }
      batchMap := batchMap[token := batchMap[token] + [qs[i]]];
    }
    assert qs[..|qs|] == qs;
  }

  lemma JoinOneMore<A, B>(f: A -> seq<B>, g: A -> seq<B>, s: seq<A>, k: nat, x: B)
    requires NoDup(s) && k < |s|
    requires f(s[k]) == g(s[k]) + [x]
    requires forall a | a in s && a != s[k] :: f(a) == g(a)
    ensures multiset(Join(f, s)) == multiset(Join(g, s)) + multiset{x}
  {
    JoinWithout(f, s, k);
    JoinWithout(g, s, k);
    SameJoin(f, g, s[..k] + s[k + 1..]);
  }

  function LocatedAt(locate: string -> string, qs: seq<Question>): string -> seq<Question> {
    t => Located(locate, qs, t)
  }

  /** Batching loses and repeats nothing: put together in any order of the
      tokens, the batches are the questions asked. */
  lemma {:induction false} BatchesPartition(locate: string -> string, qs: seq<Question>, tokens: seq<string>)
    requires NoDup(tokens) && forall q | q in qs :: locate(q.name) in tokens
    ensures multiset(Join(LocatedAt(locate, qs), tokens)) == multiset(qs)
  {
    if qs == [] {
      EmptyJoin(LocatedAt(locate, qs), tokens);
    } else {
      var n := |qs| - 1;
      assert qs == qs[..n] + [qs[n]];
      BatchesPartition(locate, qs[..n], tokens);
      var k :| 0 <= k < |tokens| && tokens[k] == locate(qs[n].name);
      JoinOneMore(LocatedAt(locate, qs), LocatedAt(locate, qs[..n]), tokens, k, qs[n]);
    }
  }

  lemma {:induction false} EmptyJoin<A, B>(f: A -> seq<B>, s: seq<A>)
    requires forall a | a in s :: f(a) == []
    ensures Join(f, s) == []
  {
    if s != [] {
      EmptyJoin(f, s[..|s| - 1]);
    }
  }

  lemma {:induction false} SameJoin<A, B>(f: A -> seq<B>, g: A -> seq<B>, s: seq<A>)
    requires forall a | a in s :: f(a) == g(a)
    ensures Join(f, s) == Join(g, s)
  {
    if s != [] {
      SameJoin(f, g, s[..|s| - 1]);
    }
  }

  // ----- one cluster -----

  /** The first reply among what the servers give, in order. */
  function FirstReply(outcomes: seq<Option<ClusterReply>>): SendResult {
    if outcomes == [] then Nothing
    else if outcomes[0].Some? then Replied(outcomes[0].value)
    else if |outcomes| == 1 then Failed
    else FirstReply(outcomes[1..])
  }

  /** Servers are tried in order until one replies. `outcomes` is what each
      would give. */
  method SendUntilSuccess(outcomes: seq<Option<ClusterReply>>) returns (r: SendResult, tried: nat)
    ensures r == FirstReply(outcomes)
    ensures tried <= |outcomes| && forall i | 0 <= i < tried - 1 :: outcomes[i].None?
    ensures r == Nothing <==> outcomes == []
    ensures r.Replied? <==> exists i :: 0 <= i < |outcomes| && outcomes[i].Some?
    ensures r.Replied? ==> 0 < tried && outcomes[tried - 1] == Some(r.reply)
  {
    r, tried := Nothing, 0;
    while tried < |outcomes|
      invariant tried <= |outcomes| && forall i | 0 <= i < tried :: outcomes[i].None?
      invariant r == if tried == 0 then Nothing else Failed
      invariant FirstReply(outcomes) == if tried < |outcomes| then FirstReply(outcomes[tried..]) else r
    {
      var outcome := outcomes[tried];
      assert outcomes[tried..][1..] == outcomes[tried + 1..];
      tried := tried + 1;
      if outcome.Some? {
        return Replied(outcome.value), tried;
      }
      r := Failed;
    }
  }

  predicate Answers(a: RR, q: Question) {
    q.name == a.name && q.qType == a.rrType
  }

  ghost predicate Answered(q: Question, answer: seq<RR>) {
    exists a :: a in answer && Answers(a, q)
  }

  ghost predicate AllAnswered(qs: seq<Question>, answer: seq<RR>) {
    forall q | q in qs :: Answered(q, answer)
  }

  /** Each question of a batch is looked for in the reply. */
  method ValidateReply(qs: seq<Question>, answer: seq<RR>) returns (all: bool)
    ensures all <==> AllAnswered(qs, answer)
    ensures all <==> forall q | q in qs :: exists a :: a in answer && a.name == q.name && a.rrType == q.qType
  {
    for i := 0 to |qs|
      invariant forall k | 0 <= k < i :: Answered(qs[k], answer)
    {
      var found := false;
      var j := 0;
      while j < |answer| && !found
        invariant j <= |answer|
        invariant !found ==> forall k | 0 <= k < j :: !Answers(answer[k], qs[i])
        invariant found ==> Answered(qs[i], answer)
        decreases |answer| - j, !found
      {
        if Answers(answer[j], qs[i]) {
          assert answer[j] in answer;
          found := true;
        } else {
          j := j + 1;
        }
      }
      if !found {
        assert qs[i] in qs;
        return false;
      }
    }
    all := true;
  }

  // ----- merging -----

  datatype Batch = Batch(questions: seq<Question>, result: SendResult)

  ghost predicate Good(b: Batch) {
    b.result.Replied? && AllAnswered(b.questions, b.result.reply.answer)
  }

  /** What a batch adds to the merged reply. */
  ghost function Part(b: Batch): ClusterReply {
    if Good(b) then b.result.reply else ClusterReply([], [], [])
  }

  ghost function PartOf(batches: seq<Batch>, i: nat): ClusterReply {
    if i < |batches| then Part(batches[i]) else ClusterReply([], [], [])
  }

  datatype Section = AnswerSection | NsSection | ExtraSection

  function SectionOf(r: ClusterReply, section: Section): seq<RR> {
    match section
    case AnswerSection => r.answer
    case NsSection => r.ns
    case ExtraSection => r.extra
  }

  ghost function SectionParts(batches: seq<Batch>, section: Section): nat -> seq<RR> {
    (i: nat) => SectionOf(PartOf(batches, i), section)
  }

  ghost predicate Completion(completion: seq<nat>, n: nat) {
    NoDup(completion) && forall i: nat :: i < n <==> i in completion
  }

  /** How often the replies to the first `n` batches hold a record in a section,
      counting only replies with an answer to every question of the batch. */
  ghost function Total(batches: seq<Batch>, section: Section, rr: RR, n: nat): nat
    requires n <= |batches|
  {
    if n == 0 then 0
    else
      var b := batches[n - 1];
      Total(batches, section, rr, n - 1)
        + if b.result.Replied?
             && forall q | q in b.questions ::
                  exists a :: a in b.result.reply.answer && a.name == q.name && a.rrType == q.qType
          then multiset(SectionOf(b.result.reply, section))[rr] else 0
  }

  function Upto(n: nat): (r: seq<nat>)
    ensures |r| == n && forall i | 0 <= i < n :: r[i] == i
  {
    seq(n, i => i)
  }

  lemma GoodIs(b: Batch)
    ensures Good(b) <==>
      && b.result.Replied?
      && forall q | q in b.questions ::
           exists a :: a in b.result.reply.answer && a.name == q.name && a.rrType == q.qType
  {
    if b.result.Replied? {
      forall q: Question { AnsweredIs(q, b.result.reply.answer); }
    }
  }

  lemma AnsweredIs(q: Question, answer: seq<RR>)
    ensures Answered(q, answer) <==> exists a :: a in answer && a.name == q.name && a.rrType == q.qType
  {
    if a :| a in answer && a.name == q.name && a.rrType == q.qType {
      assert Answers(a, q);
    }
  }

  lemma {:induction false} CountInOrder(batches: seq<Batch>, section: Section, rr: RR, n: nat)
    requires n <= |batches|
    ensures multiset(Join(SectionParts(batches, section), Upto(n)))[rr] == Total(batches, section, rr, n)
  {
    hide Good;
    if n > 0 {
      assert Upto(n)[..n - 1] == Upto(n - 1) && Upto(n)[n - 1] == n - 1;
      CountInOrder(batches, section, rr, n - 1);
      GoodIs(batches[n - 1]);
    }
  }

  /** Whatever the order of completion, a section of the merged reply holds a
      record as often as the replies to answered batches hold it there. */
  lemma MergedCounts(batches: seq<Batch>, completion: seq<nat>, section: Section, rr: RR)
    requires Completion(completion, |batches|)
    ensures multiset(Join(SectionParts(batches, section), completion))[rr] == Total(batches, section, rr, |batches|)
  {
    hide Join, Total, SectionParts;
    var order := Upto(|batches|);
    forall i: nat
      ensures i in order <==> i < |batches|
    {
      assert i < |batches| ==> order[i] == i;
    }
    SameElements(completion, order);
    JoinPermutation(SectionParts(batches, section), completion, order);
    CountInOrder(batches, section, rr, |batches|);
  }

  /** The workers merge under a lock, in whatever order they complete. `None`
      stands for the crash of a worker that got nothing. */
  method TryDirectQuery(batches: seq<Batch>, completion: seq<nat>)
    returns (hasAllAnswers: Option<bool>, msg: ClusterReply)
    requires Completion(completion, |batches|)
    ensures hasAllAnswers.None? <==> exists b :: b in batches && b.result == Nothing
    ensures hasAllAnswers.Some? ==> (hasAllAnswers.value <==> forall b | b in batches :: Good(b))
    ensures hasAllAnswers.Some? ==>
      forall section :: SectionOf(msg, section) == Join(SectionParts(batches, section), completion)
    ensures hasAllAnswers.Some? ==>
      forall section, rr ::
        multiset(SectionOf(msg, section))[rr] == Total(batches, section, rr, |batches|)
  {
    hide Total;
    msg := ClusterReply([], [], []);
    var all := true;
    for k := 0 to |completion|
      invariant forall j | 0 <= j < k :: completion[j] < |batches| && batches[completion[j]].result != Nothing
      invariant all <==> forall j | 0 <= j < k :: Good(batches[completion[j]])
      invariant forall section :: SectionOf(msg, section) == Join(SectionParts(batches, section), completion[..k])
    {
      assert completion[..k + 1][..k] == completion[..k];
      assert completion[k] in completion;
      var b := batches[completion[k]];
      match b.result {
        case Nothing =>
          assert b in batches;
          return None, msg;
        case Failed =>
          all := false;
        case Replied(reply) =>
          var valid := ValidateReply(b.questions, reply.answer);
          if valid {
            msg := ClusterReply(msg.answer + reply.answer, msg.ns + reply.ns, msg.extra + reply.extra);
          } else {
            all := false;
          }
      }
    }
    assert completion[..|completion|] == completion;
    forall b | b in batches
      ensures exists j :: 0 <= j < |completion| && batches[completion[j]] == b
    {
      var i :| 0 <= i < |batches| && batches[i] == b;
      assert i in completion;
    }
    hasAllAnswers := Some(all);
    forall section, rr { MergedCounts(batches, completion, section, rr); }
  }

  /** The merged reply holds the same records in each section whatever the order
      of completion. */
  lemma MergeIndependentOfOrder(batches: seq<Batch>, c1: seq<nat>, c2: seq<nat>, section: Section)
    requires Completion(c1, |batches|) && Completion(c2, |batches|)
    ensures multiset(Join(SectionParts(batches, section), c1)) == multiset(Join(SectionParts(batches, section), c2))
  {
    SameElements(c1, c2);
    JoinPermutation(SectionParts(batches, section), c1, c2);
  }

  /** A positive outcome means every question of every batch is answered. */
  lemma MergedAnswersAll(batches: seq<Batch>, completion: seq<nat>, b: Batch, q: Question)
    requires Completion(completion, |batches|) && forall b' | b' in batches :: Good(b')
    requires b in batches && q in b.questions
    ensures Answered(q, Join(SectionParts(batches, AnswerSection), completion))
  {
    var f := SectionParts(batches, AnswerSection);
    var i: nat :| i < |batches| && batches[i] == b;
    assert Answered(q, b.result.reply.answer);
    var a :| a in b.result.reply.answer && Answers(a, q);
    assert i in completion;
    JoinMember(f, completion, i, a);
  }

  /** A token's batch and what its cluster gives for it. `servers` holds, for each
      token, what each server of the cluster would give, in order of preference. */
  function BatchAt(locate: string -> string, qs: seq<Question>,
                   servers: string -> seq<Option<ClusterReply>>, token: string): Batch {
    Batch(Located(locate, qs, token), FirstReply(servers(token)))
  }

  /** Batching, sending and direct queries together. The outcome is positive if
      and only if every cluster asked gives a reply that answers its questions,
      and then every question has an answer with its name and type. A worker
      crashes if and only if some question is located at a cluster without
      servers. */
  method ServeQuestions(qs: seq<Question>, locate: string -> string, servers: string -> seq<Option<ClusterReply>>,
                        tokens: seq<string>, completion: seq<nat>)
    returns (hasAllAnswers: Option<bool>, msg: ClusterReply)
    requires NoDup(tokens) && forall t :: t in tokens <==> Located(locate, qs, t) != []
    requires Completion(completion, |tokens|)
    ensures hasAllAnswers.None? <==> exists q :: q in qs && servers(locate(q.name)) == []
    ensures hasAllAnswers.Some? ==>
      (hasAllAnswers.value <==> forall q | q in qs :: Good(BatchAt(locate, qs, servers, locate(q.name))))
    ensures hasAllAnswers == Some(true) ==>
      forall q | q in qs :: exists a :: a in msg.answer && a.name == q.name && a.rrType == q.qType
  {
    var batchMap := BatchQuestions(qs, locate);
    var batches: seq<Batch> := [];
    for i := 0 to |tokens|
      invariant |batches| == i
      invariant forall k | 0 <= k < i :: batches[k] == BatchAt(locate, qs, servers, tokens[k])
    {
      assert tokens[i] in tokens;
      var result, _ := SendUntilSuccess(servers(tokens[i]));
      batches := batches + [Batch(batchMap[tokens[i]], result)];
    }
    hasAllAnswers, msg := TryDirectQuery(batches, completion);
    EachBatch(qs, locate, servers, tokens, batches);
    if hasAllAnswers == Some(true) {
      forall q | q in qs
        ensures Answered(q, msg.answer)
      {
        var b := BatchAt(locate, qs, servers, locate(q.name));
        LocatedMembers(locate, qs, locate(q.name), q);
        MergedAnswersAll(batches, completion, b, q);
      }
    }
  }

  lemma NothingWithoutServers(outcomes: seq<Option<ClusterReply>>)
    ensures FirstReply(outcomes) == Nothing <==> outcomes == []
  {
  }

  /** The batches are those of the tokens that questions are located at. */
  lemma EachBatch(qs: seq<Question>, locate: string -> string, servers: string -> seq<Option<ClusterReply>>,
                  tokens: seq<string>, batches: seq<Batch>)
    requires forall t :: t in tokens <==> Located(locate, qs, t) != []
    requires |batches| == |tokens| && forall k | 0 <= k < |tokens| :: batches[k] == BatchAt(locate, qs, servers, tokens[k])
    ensures forall q | q in qs :: BatchAt(locate, qs, servers, locate(q.name)) in batches
    ensures forall b | b in batches :: exists q :: q in qs && b == BatchAt(locate, qs, servers, locate(q.name))
    ensures (exists b :: b in batches && b.result == Nothing) <==> exists q :: q in qs && servers(locate(q.name)) == []
  {
    forall q | q in qs
      ensures BatchAt(locate, qs, servers, locate(q.name)) in batches
      ensures BatchAt(locate, qs, servers, locate(q.name)).result == Nothing <==> servers(locate(q.name)) == []
    {
      NothingWithoutServers(servers(locate(q.name)));
      LocatedMembers(locate, qs, locate(q.name), q);
      var k :| 0 <= k < |tokens| && tokens[k] == locate(q.name);
      assert batches[k] in batches;
    }
    forall b | b in batches
      ensures exists q :: q in qs && b == BatchAt(locate, qs, servers, locate(q.name))
    {
      var k :| 0 <= k < |batches| && batches[k] == b;
      assert tokens[k] in tokens;
      var q := Located(locate, qs, tokens[k])[0];
      LocatedMembers(locate, qs, tokens[k], q);
    }
  }
}
