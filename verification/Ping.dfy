/** PingAll of chi_net_bench.cc, under any pattern of failing calls and failing replies. */
module Ping {
  import opened Basics

  /**
   * What happens to the call to each node, in node order: issuing it may throw, and so may
   * waiting for its reply. A synchronous call succeeds when neither does.
   */
  datatype Outcome = Outcome(issued: bool, replied: bool)

  /** The nodes whose call succeeds. */
  ghost function Answering(os: seq<Outcome>): set<nat> {
    set k: nat | k < |os| && os[k].issued && os[k].replied
  }

  lemma AnsweringLast(os: seq<Outcome>)
    requires os != []
    ensures |Answering(os)| == |Answering(os[..|os| - 1])| + (if Last(os).issued && Last(os).replied then 1 else 0)
  {
    var before := Answering(os[..|os| - 1]);
    assert Answering(os) == if Last(os).issued && Last(os).replied then before + {|os| - 1} else before;
  }

  /** The replies of the calls that could be issued. */
  function Replies(os: seq<Outcome>): seq<bool> {
    if os == [] then [] else
      Replies(os[..|os| - 1]) + if Last(os).issued then [Last(os).replied] else []
  }

  /** n is the length of the longest prefix of successful replies. */
  ghost predicate LongestPrefix(replies: seq<bool>, n: nat) {
    && n <= |replies|
    && (forall k | 0 <= k < n :: replies[k])
    && (n < |replies| ==> !replies[n])
  }

  /** The loop body's `try` covers one node; the second `try` covers the whole waiting loop. */
  method PingAll(isAsync: bool, outcomes: seq<Outcome>) returns (count: nat)
    ensures !isAsync ==> count == |Answering(outcomes)|
    ensures isAsync ==> LongestPrefix(Replies(outcomes), count)
    ensures !isAsync ==>
              count == |set k: nat | k < |outcomes| && outcomes[k].issued && outcomes[k].replied|
    ensures isAsync ==>
              count == |set k: nat | k < |outcomes| && outcomes[k].issued
                         && (forall j: nat | j <= k && outcomes[j].issued :: outcomes[j].replied)|
  {
    count := 0;
    var responses: seq<bool> := [];
    var node := 0;
    while node < |outcomes|
      invariant node <= |outcomes|
      invariant if isAsync then count == 0 && responses == Replies(outcomes[..node])
                else count == |Answering(outcomes[..node])|
    {
      assert outcomes[..node + 1][..node] == outcomes[..node];
      AnsweringLast(outcomes[..node + 1]);
      if isAsync {
        if outcomes[node].issued {
          responses := responses + [outcomes[node].replied];
        }
      } else if outcomes[node].issued && outcomes[node].replied {
        count := count + 1;
      }
      node := node + 1;
    }
    assert outcomes[..node] == outcomes;
    if isAsync {
      while count < |responses| && responses[count]
        invariant count <= |responses|
        invariant forall k | 0 <= k < count :: responses[k]
      {
        count := count + 1;
      }
      LostOrGiven(outcomes, count);
    }
  }

  /** The nodes whose call is issued and answered before any wait has failed. */
  ghost function BeforeFailure(os: seq<Outcome>): set<nat> {
    set k: nat | k < |os| && os[k].issued && forall j: nat | j <= k && os[j].issued :: os[j].replied
  }

  ghost predicate NoneLost(os: seq<Outcome>) { forall j: nat | j < |os| && os[j].issued :: os[j].replied }

  lemma LastBeforeFailure(os: seq<Outcome>)
    requires os != []
    ensures var init, k := os[..|os| - 1], |os| - 1;
            && (NoneLost(os) <==> NoneLost(init) && (os[k].issued ==> os[k].replied))
            && BeforeFailure(os) == BeforeFailure(init)
                                    + if os[k].issued && os[k].replied && NoneLost(init) then {k} else {}
  {
    var init, k := os[..|os| - 1], |os| - 1;
    assert forall j: nat | j < k :: os[j] == init[j];
  }

  /** One more reply lengthens a prefix only when it is good and all before it were. */
  lemma LastOfPrefix(bs: seq<bool>, last: bool, n: nat)
    requires LongestPrefix(bs + [last], n)
    ensures LongestPrefix(bs, if n < |bs| then n else |bs|)
    ensures n == |bs| + 1 <==> last && n >= |bs|
    ensures n <= |bs| + 1
  {
    assert (bs + [last])[|bs|] == last && forall j | 0 <= j < |bs| :: (bs + [last])[j] == bs[j];
  }

  lemma {:induction false} LostOrGiven(os: seq<Outcome>, n: nat)
    requires LongestPrefix(Replies(os), n)
    ensures n == |BeforeFailure(os)| && (n == |Replies(os)| <==> NoneLost(os))
  {
    if os == [] {
    } else {
      var init := os[..|os| - 1];
      var rs := Replies(init);
      LastBeforeFailure(os);
      BelowLength(init);
      hide BeforeFailure, NoneLost, LongestPrefix;
      assert BeforeFailure(init) + {} == BeforeFailure(init);
      if Last(os).issued {
        LastOfPrefix(rs, Last(os).replied, n);
        LostOrGiven(init, if n < |rs| then n else |rs|);
      } else {
        assert rs + [] == rs;
        LostOrGiven(init, n);
      }
    }
  }

  lemma BelowLength(os: seq<Outcome>)
    ensures |os| !in BeforeFailure(os)
  {}

  function Trues(bs: seq<bool>): nat {
    if bs == [] then 0 else Trues(bs[..|bs| - 1]) + (if Last(bs) then 1 else 0)
  }

  lemma {:induction false} AnsweringReplies(os: seq<Outcome>)
    ensures |Answering(os)| == Trues(Replies(os))
  {
    if os == [] {
    } else {
      var rs := Replies(os[..|os| - 1]);
      AnsweringReplies(os[..|os| - 1]);
      AnsweringLast(os);
      assert (rs + [Last(os).replied])[..|rs|] == rs && rs + [] == rs;
    }
  }

  lemma {:induction false} PrefixVersusTrues(bs: seq<bool>, n: nat)
    requires LongestPrefix(bs, n)
    ensures n <= Trues(bs)
    ensures n == Trues(bs) <==> forall k | n <= k < |bs| :: !bs[k]
  {
    if |bs| == n {
      if n > 0 {
        PrefixVersusTrues(bs[..n - 1], n - 1);
      }
    } else {
      var init := bs[..|bs| - 1];
      PrefixVersusTrues(init, n);
      assert forall k | 0 <= k < |init| :: bs[k] == init[k];
    }
  }

  predicate Lost(os: seq<Outcome>, i: nat) { i < |os| && os[i].issued && !os[i].replied }

  predicate Given(os: seq<Outcome>, j: nat) { j < |os| && os[j].issued && os[j].replied }

  ghost predicate AnyLost(os: seq<Outcome>) { exists i: nat :: Lost(os, i) }

  /** A wait that fails although a later issued call would have been answered. */
  ghost predicate FailureBeforeSuccess(os: seq<Outcome>) {
    exists i: nat, j: nat :: i < j && Lost(os, i) && Given(os, j)
  }

  lemma LastOutcome(os: seq<Outcome>)
    requires os != []
    ensures var init, k := os[..|os| - 1], |os| - 1;
            && (AnyLost(os) <==> AnyLost(init) || Lost(os, k))
            && (FailureBeforeSuccess(os) <==> FailureBeforeSuccess(init) || (AnyLost(init) && Given(os, k)))
  {
    hide AnyLost, FailureBeforeSuccess;
    var init, k := os[..|os| - 1], |os| - 1;
    assert forall i: nat | i < k :: (Lost(os, i) <==> Lost(init, i)) && (Given(os, i) <==> Given(init, i));
    LastOfAny(os, init, k);
  }

  lemma LastOfAny(os: seq<Outcome>, init: seq<Outcome>, k: nat)
    requires |os| == k + 1 && |init| == k
    requires forall i: nat | i < k :: (Lost(os, i) <==> Lost(init, i)) && (Given(os, i) <==> Given(init, i))
    ensures AnyLost(os) <==> AnyLost(init) || Lost(os, k)
    ensures FailureBeforeSuccess(os) <==> FailureBeforeSuccess(init) || (AnyLost(init) && Given(os, k))
  {
    assert forall i: nat | Lost(os, i) :: i < k || i == k;
    assert forall i: nat | Given(os, i) :: i < k || i == k;
    if i: nat :| Lost(init, i) {
      assert Lost(os, i);
    }
    if i: nat, j: nat :| i < j && Lost(init, i) && Given(init, j) {
      assert Lost(os, i) && Given(os, j);
    }
  }

  predicate Miss(bs: seq<bool>, a: nat) { a < |bs| && !bs[a] }

  predicate Hit(bs: seq<bool>, b: nat) { b < |bs| && bs[b] }

  ghost predicate AnyMiss(bs: seq<bool>) { exists a: nat :: Miss(bs, a) }

  ghost predicate MissBeforeHit(bs: seq<bool>) { exists a: nat, b: nat :: a < b && Miss(bs, a) && Hit(bs, b) }

  lemma LastReply(bs: seq<bool>, last: bool)
    ensures AnyMiss(bs + [last]) <==> AnyMiss(bs) || !last
    ensures MissBeforeHit(bs + [last]) <==> MissBeforeHit(bs) || (AnyMiss(bs) && last)
  {
    var bs', k := bs + [last], |bs|;
    assert forall a: nat | a < k :: (Miss(bs', a) <==> Miss(bs, a)) && (Hit(bs', a) <==> Hit(bs, a));
    assert (Miss(bs', k) <==> !last) && (Hit(bs', k) <==> last);
    if a: nat :| Miss(bs, a) {
      assert Miss(bs', a);
    }
    if a: nat, b: nat :| a < b && Miss(bs, a) && Hit(bs, b) {
      assert Miss(bs', a) && Hit(bs', b);
    }
  }

  /** Issued calls keep their order among the responses. */
  lemma {:induction false} RepliesInOrder(os: seq<Outcome>)
    ensures AnyLost(os) <==> AnyMiss(Replies(os))
    ensures FailureBeforeSuccess(os) <==> MissBeforeHit(Replies(os))
  {
    if os == [] {
    } else {
      hide AnyLost, FailureBeforeSuccess, AnyMiss, MissBeforeHit;
      RepliesInOrder(os[..|os| - 1]);
      LastOutcome(os);
      LastReply(Replies(os[..|os| - 1]), Last(os).replied);
      assert Replies(os[..|os| - 1]) + [] == Replies(os[..|os| - 1]);
    }
  }

  lemma FailureMeans(os: seq<Outcome>)
    ensures FailureBeforeSuccess(os) <==>
            exists i: nat, j: nat :: i < j < |os| && os[i].issued && !os[i].replied && os[j].issued && os[j].replied
  {
    if i: nat, j: nat :| i < j < |os| && os[i].issued && !os[i].replied && os[j].issued && os[j].replied {
      assert Lost(os, i) && Given(os, j);
    }
  }

  lemma PrefixOfReplies(os: seq<Outcome>, asyncCount: nat)
    requires LongestPrefix(Replies(os), asyncCount)
    ensures asyncCount <= |Answering(os)|
    ensures asyncCount == |Answering(os)| <==> !FailureBeforeSuccess(os)
  {
    var rs := Replies(os);
    AnsweringReplies(os);
    PrefixVersusTrues(rs, asyncCount);
    RepliesInOrder(os);
    if a: nat, b: nat :| a < b && Miss(rs, a) && Hit(rs, b) {
      assert asyncCount <= b && rs[b];
    }
    if b: nat :| asyncCount <= b < |rs| && rs[b] {
      assert Miss(rs, asyncCount) && Hit(rs, b);
    }
  }

  /**
   * The async ping never counts more nodes than the sync one, and fewer exactly when a
   * failed wait comes before a node that would have replied.
   */
  lemma AsyncAtMostSync(os: seq<Outcome>, asyncCount: nat)
    requires LongestPrefix(Replies(os), asyncCount)
    ensures asyncCount <= |Answering(os)| == |set k: nat | k < |os| && os[k].issued && os[k].replied|
    ensures asyncCount == |Answering(os)| <==> !FailureBeforeSuccess(os)
    ensures asyncCount < |Answering(os)| <==>
            exists i: nat, j: nat :: i < j < |os| && os[i].issued && !os[i].replied && os[j].issued && os[j].replied
  {
    hide LongestPrefix, Replies, FailureBeforeSuccess;
    PrefixOfReplies(os, asyncCount);
    FailureMeans(os);
  }
}
