/**
 * The key choices of rotation, removal and restore, as functions of the active
 * set's key list; the provider pool's handlers are proved against these.
 */
module Rotation {

  import Seqs

  /** No key appears twice. */
  predicate Distinct(ks: seq<string>) {
    forall i, j :: 0 <= i < j < |ks| ==> ks[i] != ks[j]
  }

  /**
   * `i % n` for an index that is at most one past the end, which is all the
   * handlers ever reduce: the index itself, or 0 once it reaches `n`.
   */
  function Wrap(i: nat, n: nat): (r: nat)
    requires i <= n && n > 0
    ensures r < n
  {
    if i < n then i else 0
  }

  lemma WrapIsModulo(i: nat, n: nat)
    requires i <= n && n > 0
    ensures Wrap(i, n) == i % n
  {
  }

  /**
   * The active key `handleKeyRotation` leaves behind when the active set holds
   * `ks` and `current` is active: the empty key for an empty set, the only key
   * of a one-key set, and otherwise the key after the first occurrence of
   * `current`, wrapping around, or the first key when `current` is not in the set.
   */
  function RotatedKey(ks: seq<string>, current: string): (r: string)
    ensures |ks| == 0 ==> r == ""
    ensures |ks| > 0 ==> r in ks
  {
    if |ks| == 0 then ""
    else if |ks| == 1 then ks[0]
    else
      var i := Seqs.IndexOf(ks, current);
      if i != -1 then ks[Wrap(i + 1, |ks|)] else ks[0]
  }

  /** `m` rotations in a row. */
  function RotateTimes(ks: seq<string>, m: nat, current: string): string
  {
    if m == 0 then current else RotatedKey(ks, RotateTimes(ks, m - 1, current))
  }

  /** In a set of distinct keys, a rotation moves from a key to the one after it, wrapping around. */
  lemma RotationAdvances(ks: seq<string>, j: int)
    requires Distinct(ks) && |ks| >= 2 && 0 <= j < |ks|
    ensures RotatedKey(ks, ks[j]) == ks[Wrap(j + 1, |ks|)]
    ensures RotatedKey(ks, ks[j]) != ks[j]
  {
  }

  /** The index reached from `j` after `m` single steps around a ring of `n` positions. */
  function RingPosition(j: nat, m: nat, n: nat): (p: nat)
    requires j < n
    ensures p < n
  {
    if m == 0 then j else Wrap(RingPosition(j, m - 1, n) + 1, n)
  }

  /** Up to one full turn, the ring position is `j + m` with at most one wrap. */
  lemma {:induction false} RingPositionWithinTurn(j: nat, m: nat, n: nat)
    requires j < n && m <= n
    ensures RingPosition(j, m, n) == if j + m < n then j + m else j + m - n
  {
    if m > 0 {
      RingPositionWithinTurn(j, m - 1, n);
    }
  }

  /** After `m` rotations from the `j`-th key of a set of distinct keys, the key at ring position `j + m` is active. */
  lemma {:induction false} RotationSteps(ks: seq<string>, j: nat, m: nat)
    requires Distinct(ks) && |ks| >= 2 && j < |ks|
    ensures RotateTimes(ks, m, ks[j]) == ks[RingPosition(j, m, |ks|)]
  {
    if m > 0 {
      var p := RingPosition(j, m - 1, |ks|);
      RotationSteps(ks, j, m - 1);
      var prev := RotateTimes(ks, m - 1, ks[j]);
      var q := Wrap(p + 1, |ks|);
      RotationAdvances(ks, p);
      assert RingPosition(j, m, |ks|) == q;
      assert prev == ks[p];
      assert RotateTimes(ks, m, ks[j]) == RotatedKey(ks, prev) == RotatedKey(ks, ks[p]) == ks[q];
    }
  }

  /** Rotation is a cycle: in a set of n >= 2 distinct keys, n rotations bring back the starting key. */
  lemma RotationCycle(ks: seq<string>, j: nat)
    requires Distinct(ks) && |ks| >= 2 && j < |ks|
    ensures RotateTimes(ks, |ks|, ks[j]) == ks[j]
  {
    RotationSteps(ks, j, |ks|);
    RingPositionWithinTurn(j, |ks|, |ks|);
  }

  /** With one key in the set, rotating again changes nothing. */
  lemma SingleKeyRotationIsStable(ks: seq<string>, current: string)
    requires |ks| == 1
    ensures RotatedKey(ks, RotatedKey(ks, current)) == RotatedKey(ks, current) == ks[0]
  {
  }

  /**
   * The cycle needs distinct keys: with a duplicate, rotation always restarts
   * from the duplicate's first occurrence, and three rotations through
   * ["A", "B", "A"] starting at "A" end at "B".
   */
  lemma DuplicateKeysBreakTheCycle()
    ensures RotateTimes(["A", "B", "A"], 3, "A") == "B"
  {
  }

  /** The key `handleKeyRemoval` activates: the one now at the removed index, wrapping around, or none. */
  function KeyAfterRemoval(remaining: seq<string>, removedIndex: nat): (r: string)
    requires removedIndex <= |remaining|
    ensures |remaining| == 0 ==> r == ""
    ensures |remaining| > 0 ==> r in remaining
  {
    if |remaining| == 0 then "" else remaining[Wrap(removedIndex, |remaining|)]
  }

  /**
   * After removing the key at `i`, the activated key is the one that followed
   * it in the set, or the first key when the last one was removed, or none
   * when the set is now empty.
   */
  lemma RemovalActivatesSuccessor(ks: seq<string>, i: int)
    requires 0 <= i < |ks|
    ensures KeyAfterRemoval(Seqs.RemoveAt(ks, i), i) ==
      if |ks| == 1 then "" else if i + 1 < |ks| then ks[i + 1] else ks[0]
  {
  }

  /** The key list after a restore: the key is appended unless it is already there. */
  function RestoredKeys(ks: seq<string>, k: string): (r: seq<string>)
    ensures k in r
    ensures forall x :: x in r <==> x in ks || x == k
    ensures k in ks ==> r == ks
    ensures k !in ks ==> multiset(r) == multiset(ks) + multiset{k}
  {
    if k in ks then ks else ks + [k]
  }

  /**
   * Removing a key and restoring its bin entry into the same set gives back
   * the same keys; when the key occurred once, the same multiset of keys.
   */
  lemma RemoveThenRestore(ks: seq<string>, i: int)
    requires 0 <= i < |ks|
    ensures forall x :: x in RestoredKeys(Seqs.RemoveAt(ks, i), ks[i]) <==> x in ks
    ensures ks[i] !in Seqs.RemoveAt(ks, i) ==>
      multiset(RestoredKeys(Seqs.RemoveAt(ks, i), ks[i])) == multiset(ks)
  {
    var rest := Seqs.RemoveAt(ks, i);
    Seqs.RemoveAtMultiset(ks, i);
    forall x | x in ks ensures x in rest || x == ks[i] {
      assert x in multiset(ks);
    }
    forall x | x in rest ensures x in ks {
      assert x in multiset(rest);
    }
  }
}
