/**
 * Util of the concurrent axis package: pulling the next key from an axis,
 * with the null node key as the sentinel for an exhausted axis, and the
 * guard that tells node keys from the (negative) keys of atomic values.
 */
module ConcurrentUtil {
  import opened Wrappers
  import opened TreetankAxis

  /**
   * Treetank's NULL_NODE_KEY, returned once an axis has no more results: a
   * fixed negative key (EFixed, which holds it, is not part of this model).
   */
  const NULL_NODE_KEY: int := -15

  /** The XPath error raised for an atomic value where a node is required. */
  datatype XPathError = XPTY0004

  /** One call of getNext on the keys still to come: the key returned and the keys left. */
  function Pull(rem: seq<int>): (int, seq<int>) {
    if rem == [] then (NULL_NODE_KEY, []) else (rem[0], rem[1..])
  }

  /**
   * getNext: the next key of the axis when it has one, the null node key
   * otherwise; an exhausted axis is left as it is.
   */
  method GetNext(axis: Axis) returns (key: int)
    requires axis.Valid()
    modifies axis
    ensures axis.Valid() && axis.keys == old(axis.keys)
    ensures (key, axis.Remaining()) == Pull(old(axis.Remaining()))
    ensures old(axis.HasNext()) ==> key == old(axis.keys[axis.cursor]) && axis.cursor == old(axis.cursor) + 1
    ensures !old(axis.HasNext()) ==> key == NULL_NODE_KEY && axis.cursor == old(axis.cursor)
  {
    if axis.HasNext() {
      key := axis.Next();
    } else {
      key := NULL_NODE_KEY;
    }
  }

  /** The keys returned by `n` calls of getNext in a row. */
  function Drain(rem: seq<int>, n: nat): seq<int>
    decreases n
  {
    if n == 0 then [] else [Pull(rem).0] + Drain(Pull(rem).1, n - 1)
  }

  /** `n` null node keys. */
  function Sentinels(n: nat): (r: seq<int>)
    ensures |r| == n && forall i | 0 <= i < n :: r[i] == NULL_NODE_KEY
  {
    seq(n, _ => NULL_NODE_KEY)
  }

  /** Pulling `n` times yields the remaining keys in order, then nothing but sentinels. */
  lemma {:induction false} DrainYieldsKeysThenSentinels(rem: seq<int>, n: nat)
    ensures Drain(rem, n) == if n <= |rem| then rem[..n] else rem + Sentinels(n - |rem|)
    decreases n
  {
    if n > 0 {
      DrainYieldsKeysThenSentinels(Pull(rem).1, n - 1);
      if rem == [] {
        assert Drain(rem, n) == [NULL_NODE_KEY] + Sentinels(n - 1);
        assert [NULL_NODE_KEY] + Sentinels(n - 1) == Sentinels(n);
      } else if n <= |rem| {
        assert rem[..n] == [rem[0]] + rem[1..][..n - 1];
      } else {
        assert rem == [rem[0]] + rem[1..];
      }
    }
  }

  /**
   * A caller of getNext that Util itself does not contain: pulling `n` keys
   * in a row collects exactly the keys `Drain` predicts, and the axis is left
   * with what follows them.
   */
  method DrainAxis(axis: Axis, n: nat) returns (out: seq<int>)
    requires axis.Valid()
    modifies axis
    ensures axis.Valid() && axis.keys == old(axis.keys)
    ensures out == Drain(old(axis.Remaining()), n)
    ensures axis.Remaining() == old(axis.Remaining())[if n <= |old(axis.Remaining())| then n else |old(axis.Remaining())|..]
  {
    out := [];
    var i := 0;
    while i < n
      invariant 0 <= i <= n
      invariant axis.Valid() && axis.keys == old(axis.keys)
      invariant out + Drain(axis.Remaining(), n - i) == Drain(old(axis.Remaining()), n)
      invariant axis.Remaining() == old(axis.Remaining())[if i <= |old(axis.Remaining())| then i else |old(axis.Remaining())|..]
    {
      ghost var before := axis.Remaining();
      var key := GetNext(axis);
      assert Drain(before, n - i) == [key] + Drain(axis.Remaining(), n - i - 1);
      out := out + [key];
      i := i + 1;
    }
  }

  /**
   * When the axis yields only node keys (never negative), the sentinel tells
   * exhaustion apart from a result: the i-th pull returns the null node key
   * exactly when i is past the remaining keys.
   */
  lemma SentinelMeansExhausted(rem: seq<int>, n: nat, i: nat)
    requires forall j | 0 <= j < |rem| :: rem[j] >= 0
    requires i < n
    ensures i < |Drain(rem, n)|
    ensures Drain(rem, n)[i] == NULL_NODE_KEY <==> i >= |rem|
  {
    DrainYieldsKeysThenSentinels(rem, n);
    if i >= |rem| {
      assert Drain(rem, n)[i] == Sentinels(n - |rem|)[i - |rem|];
    }
  }

  /** What one call of isValid produces: its result and the error it logs, if any. */
  datatype Outcome = Outcome(result: bool, logged: Option<XPathError>)

  /**
   * isValid as written: a negative key makes it raise XPTY0004, but the
   * error is caught and only logged, and the result is true for every key.
   */
  function IsValid(nodeKey: int): (o: Outcome)
    ensures o.result
    ensures o.logged.Some? <==> nodeKey < 0
    ensures o.logged.Some? ==> o.logged.value == XPTY0004
  {
    Outcome(true, if nodeKey < 0 then Some(XPTY0004) else None)
  }

  /** The guard as documented: true for a node key, XPTY0004 for the key of an atomic value. */
  function CheckIsNode(nodeKey: int): (r: Result<bool, XPathError>)
    ensures r.Ok? <==> nodeKey >= 0
    ensures r.Ok? ==> r.value
    ensures r.Err? ==> r.error == XPTY0004
  {
    if nodeKey < 0 then Err(XPTY0004) else Ok(true)
  }

  /**
   * The documented guard fails exactly where isValid logs, and with the
   * error it logs; isValid nevertheless lets the key through.
   */
  lemma IsValidLogsWhereCheckFails(nodeKey: int)
    ensures CheckIsNode(nodeKey).Err? <==> IsValid(nodeKey).logged.Some?
    ensures CheckIsNode(nodeKey).Err? ==> Some(CheckIsNode(nodeKey).error) == IsValid(nodeKey).logged
  {
  }

  /** The atomic-value key -1 passes isValid although the documented guard rejects it. */
  lemma IsValidAcceptsAtomicValueKey()
    ensures IsValid(-1).result
    ensures CheckIsNode(-1) == Err(XPTY0004)
  {
  }
}
