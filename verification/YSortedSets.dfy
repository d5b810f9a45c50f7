/** The sorted set: an index from scores to members and one from members to scores, kept in agreement. */
module YSortedSets {
  import opened ByteStrings
  import opened ReplyBuffers
  import opened RespFormat
  import opened Keyspace

  /** The two indexes say the same: a member has a score exactly when it lies in the bucket of that score, so it lies in
      one bucket only, and no bucket is empty. */
  ghost predicate Agree<S>(buckets: map<S, set<Bytes>>, scores: map<Bytes, S>) {
    && (forall m | m in scores :: scores[m] in buckets && m in buckets[scores[m]])
    && (forall s | s in buckets :: buckets[s] != {})
    && (forall s, m | s in buckets && m in buckets[s] :: m in scores && scores[m] == s)
  }

  ghost function SomeScore<S>(buckets: map<S, set<Bytes>>): (s: S)
    requires buckets != map[]
    ensures s in buckets
  {
    var s :| s in buckets;
    s
  }

  ghost function BucketTotal<S>(buckets: map<S, set<Bytes>>): nat
    decreases |buckets|
  {
    if buckets == map[] then 0
    else
      var s := SomeScore(buckets);
      var rest := buckets - {s};
      assert |rest.Keys| < |buckets.Keys| by {
        assert rest.Keys == buckets.Keys - {s};
      }
      |buckets[s]| + BucketTotal(rest)
  }

  /** Taking away one bucket with its members keeps the indexes in agreement. */
  lemma DropBucket<S>(buckets: map<S, set<Bytes>>, scores: map<Bytes, S>, s: S)
    requires Agree(buckets, scores) && s in buckets
    ensures Agree(buckets - {s}, scores - buckets[s])
  {
    var without, rest := buckets - {s}, scores - buckets[s];
    forall m | m in rest ensures rest[m] in without && m in without[rest[m]] {
      assert m in scores && m in buckets[scores[m]];
    }
    forall t, m | t in without && m in without[t] ensures m in rest && rest[m] == t {
      assert m in scores && scores[m] == t;
    }
    forall t | t in without ensures without[t] != {} {
      assert t in buckets;
    }
  }

  lemma SplitSize<S>(scores: map<Bytes, S>, members: set<Bytes>)
    requires members <= scores.Keys
    ensures |scores| == |scores - members| + |members|
  {
    var rest := scores - members;
    assert scores.Keys == rest.Keys + members && rest.Keys !! members;
    assert |scores.Keys| == |rest.Keys| + |members|;
  }

  /** The sizes of the buckets add up to the number of members. */
  lemma {:induction false} BucketsPartition<S>(buckets: map<S, set<Bytes>>, scores: map<Bytes, S>)
    requires Agree(buckets, scores)
    ensures BucketTotal(buckets) == |scores|
    decreases |buckets|
  {
    if buckets == map[] {
      assert forall m :: m !in scores;
      assert scores == map[];
    } else {
      var s := SomeScore(buckets);
      DropBucket(buckets, scores, s);
      SplitSize(scores, buckets[s]);
      assert (buckets - {s}).Keys == buckets.Keys - {s};
      BucketsPartition(buckets - {s}, scores - buckets[s]);
    }
  }

  /** A pair of the command: the text of a score and a member. */
  datatype Pair = Pair(score: Bytes, member: Bytes)

  /** The pairs a ZADD carries after its name and its key. */
  function Pairs(params: seq<Bytes>): (pairs: seq<Pair>)
    requires |params| >= 2
    ensures |pairs| == (|params| - 2) / 2
  {
    seq((|params| - 2) / 2, k requires 0 <= k < (|params| - 2) / 2 => Pair(params[2 * k + 2], params[2 * k + 3]))
  }

  /** The scores after adding the pairs from the left: a member that is there keeps its score. */
  function Added<S>(scores: map<Bytes, S>, pairs: seq<Pair>, atof: Bytes -> S): map<Bytes, S> {
    if pairs == [] then scores
    else
      var before := Added(scores, pairs[..|pairs| - 1], atof);
      var p := pairs[|pairs| - 1];
      if p.member in before then before else before[p.member := atof(p.score)]
  }

  lemma AddedNext<S>(scores: map<Bytes, S>, params: seq<Bytes>, k: nat, atof: Bytes -> S)
    requires 2 * k + 3 < |params|
    ensures k < |Pairs(params)|
    ensures var before := Added(scores, Pairs(params)[..k], atof);
            Added(scores, Pairs(params)[..k + 1], atof)
            == if params[2 * k + 3] in before then before else before[params[2 * k + 3] := atof(params[2 * k + 2])]
  {
    assert Pairs(params)[..k + 1][..k] == Pairs(params)[..k];
  }

  /** One command after another adds like one command with the pairs of both, so the first score wins over
      whole runs. */
  lemma {:induction false} AddedInTurn<S>(scores: map<Bytes, S>, first: seq<Pair>, second: seq<Pair>, atof: Bytes -> S)
    ensures Added(Added(scores, first, atof), second, atof) == Added(scores, first + second, atof)
  {
    if second == [] {
      assert first + second == first;
    } else {
      hide Added;
      var n := |second| - 1;
      AddedInTurn(scores, first, second[..n], atof);
      AddedLast(Added(scores, first, atof), second, atof);
      AddedLast(scores, first + second, atof);
      assert (first + second)[..|first + second| - 1] == first + second[..n];
    }
  }

  lemma AddedLast<S>(scores: map<Bytes, S>, pairs: seq<Pair>, atof: Bytes -> S)
    requires pairs != []
    ensures var p, before := pairs[|pairs| - 1], Added(scores, pairs[..|pairs| - 1], atof);
            Added(scores, pairs, atof) == if p.member in before then before else before[p.member := atof(p.score)]
  {}

  lemma AddedNone<S>(scores: map<Bytes, S>, pairs: seq<Pair>, atof: Bytes -> S)
    ensures Added(scores, pairs[..0], atof) == scores
  {}

  lemma OneMore<S>(scores: map<Bytes, S>, m: Bytes, s: S)
    requires m !in scores
    ensures |scores[m := s]| == |scores| + 1
  {
    assert scores[m := s].Keys == scores.Keys + {m};
    assert |scores[m := s].Keys| == |scores.Keys| + 1;
  }

  /** Pair `k` is the first one that names the member. */
  predicate FirstPair(pairs: seq<Pair>, k: nat, m: Bytes) {
    k < |pairs| && pairs[k].member == m && forall j | 0 <= j < k :: pairs[j].member != m
  }

  /** The first score wins: a member keeps the score it had, a new one has the score of its first pair, and no other
      member appears. */
  lemma {:induction false} FirstScoreWins<S>(scores: map<Bytes, S>, pairs: seq<Pair>, atof: Bytes -> S, m: Bytes)
    ensures var r := Added(scores, pairs, atof);
            && (m in scores ==> m in r && r[m] == scores[m])
            && (m !in scores ==> (m in r <==> exists k: nat :: FirstPair(pairs, k, m)))
            && (m !in scores ==> forall k: nat | FirstPair(pairs, k, m) :: m in r && r[m] == atof(pairs[k].score))
  {
    if pairs != [] {
      var n := |pairs| - 1;
      FirstScoreWins(scores, pairs[..n], atof, m);
      forall k: nat | FirstPair(pairs[..n], k, m) ensures FirstPair(pairs, k, m) {}
      forall k: nat | FirstPair(pairs, k, m) && k < n ensures FirstPair(pairs[..n], k, m) {}
      if pairs[n].member == m && m !in scores && m !in Added(scores, pairs[..n], atof) {
        NotNamed(pairs[..n], m);
        assert FirstPair(pairs, n, m);
      }
    }
  }

  /** The same, said about the words of the command: the word before a member's first mention is its score. */
  lemma FirstScoreOfCommand<S>(scores: map<Bytes, S>, params: seq<Bytes>, atof: Bytes -> S, k: nat)
    requires 2 * k + 3 < |params| && params[2 * k + 3] !in scores
    requires forall j | 0 <= j < k :: params[2 * j + 3] != params[2 * k + 3]
    ensures var r, m := Added(scores, Pairs(params), atof), params[2 * k + 3];
            m in r && r[m] == atof(params[2 * k + 2])
  {
    hide Added;
    var m := params[2 * k + 3];
    FirstScoreWins(scores, Pairs(params), atof, m);
    FirstMention(params, k);
  }

  lemma FirstMention(params: seq<Bytes>, k: nat)
    requires 2 * k + 3 < |params|
    requires forall j | 0 <= j < k :: params[2 * j + 3] != params[2 * k + 3]
    ensures FirstPair(Pairs(params), k, params[2 * k + 3]) && Pairs(params)[k].score == params[2 * k + 2]
  {
  }

  /** ... and only members the command names are added. */
  lemma OnlyNamedMembers<S>(scores: map<Bytes, S>, params: seq<Bytes>, atof: Bytes -> S, m: Bytes)
    requires |params| >= 2 && m in Added(scores, Pairs(params), atof) && m !in scores
    ensures exists k: nat | 2 * k + 3 < |params| :: params[2 * k + 3] == m
  {
    FirstScoreWins(scores, Pairs(params), atof, m);
    var k: nat :| FirstPair(Pairs(params), k, m);
    assert params[2 * k + 3] == m;
  }

  /** Either some pair is the first to name the member, or none names it. */
  lemma {:induction false} NotNamed(pairs: seq<Pair>, m: Bytes)
    ensures (exists k: nat :: FirstPair(pairs, k, m)) || forall j | 0 <= j < |pairs| :: pairs[j].member != m
  {
    if pairs != [] {
      var front := pairs[..|pairs| - 1];
      NotNamed(front, m);
      if exists k: nat :: FirstPair(front, k, m) {
        var k: nat :| FirstPair(front, k, m);
        assert FirstPair(pairs, k, m);
      } else if pairs[|pairs| - 1].member == m {
        assert FirstPair(pairs, |pairs| - 1, m);
      }
    }
  }

  class YSortedSet<S(==)> {
    var m_Score2Members: map<S, set<Bytes>>
    var m_Member2Scores: map<Bytes, S>

    ghost predicate Valid()
      reads this
    {
      Agree(m_Score2Members, m_Member2Scores)
    }

    constructor ()
      ensures Valid() && m_Member2Scores == map[]
    {
      m_Score2Members := map[];
      m_Member2Scores := map[];
    }

    method FindMember(member: Bytes) returns (found: bool)
      ensures found <==> member in m_Member2Scores
    {
      found := member in m_Member2Scores;
    }

    /** Adds a member that is not there yet to both indexes. */
    method AddMember(member: Bytes, score: S)
      requires Valid() && member !in m_Member2Scores
      modifies this
      ensures Valid() && m_Member2Scores == old(m_Member2Scores)[member := score]
    {
      m_Member2Scores := m_Member2Scores[member := score];
      var bucket := if score in m_Score2Members then m_Score2Members[score] else {};
      m_Score2Members := m_Score2Members[score := bucket + {member}];
    }

    /** ZADD on the set of its key: `params` are the command's words, pairs from index 2 on. The reply is how much the
        set grew, also when a member occurs twice in the command. */
    method ZAdd(params: seq<Bytes>, atof: Bytes -> S, reply: ReplyBuffer) returns (err: YError)
      requires Valid() && 1 <= |params| <= LONG_MAX
      requires reply.Valid() && |reply.Contents()| + 64 <= MAX_BUFFER_SIZE
      modifies this, reply
      ensures Valid() && reply.Valid()
      ensures |params| % 2 != 0 ==> err == ErrorSyntax && m_Member2Scores == old(m_Member2Scores)
                                    && reply.Contents() == old(reply.Contents()) + Ascii("-ERR syntax error\r\n")
      ensures |params| % 2 == 0 ==>
                && err == ErrorOk && m_Member2Scores == Added(old(m_Member2Scores), Pairs(params), atof)
                && reply.Contents()
                   == old(reply.Contents()) + IntReply(|m_Member2Scores| - |old(m_Member2Scores)|)
    {
      if |params| % 2 != 0 {
        var _ := reply.PushData(Ascii("-ERR syntax error\r\n"));
        return ErrorSyntax;
      }
      var newMembers := AddPairs(params, atof);
      DecimalsFit(newMembers);
      var _ := FormatInt(newMembers, reply);
      err := ErrorOk;
    }

    /** The loop of `zadd`. */
    method AddPairs(params: seq<Bytes>, atof: Bytes -> S) returns (newMembers: nat)
      requires Valid() && |params| >= 2 && |params| % 2 == 0
      modifies this
      ensures Valid() && m_Member2Scores == Added(old(m_Member2Scores), Pairs(params), atof)
      ensures newMembers == |m_Member2Scores| - |old(m_Member2Scores)| && newMembers <= |params|
    {
      hide Agree, Added, Pairs;
      newMembers := 0;
      var i := 2;
      ghost var k := 0;
      AddedNone(m_Member2Scores, Pairs(params), atof);
      while i < |params|
        invariant Valid() && i == 2 * k + 2 <= |params|
        invariant m_Member2Scores == Added(old(m_Member2Scores), Pairs(params)[..k], atof)
        invariant |m_Member2Scores| == |old(m_Member2Scores)| + newMembers && newMembers <= k
      {
        AddedNext(old(m_Member2Scores), params, k, atof);
        var score := atof(params[i]);
        var found := FindMember(params[i + 1]);
        if !found {
          OneMore(m_Member2Scores, params[i + 1], score);
          AddMember(params[i + 1], score);
          newMembers := newMembers + 1;
        }
        i, k := i + 2, k + 1;
      }
      assert Pairs(params)[..k] == Pairs(params);
    }
  }
}
