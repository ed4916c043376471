/**
 * The list operations the store applies to the member names: Ruby's
 * `Array#index`, the element assignment `lines[i] = name`, `Array#reject`
 * and counting equal entries.
 */
module Roster {
  import opened Wrappers
  import opened Lines

  /** How many entries of `ls` equal `x`. */
  function Count(ls: seq<string>, x: string): (n: nat)
    ensures n <= |ls|
    ensures n == 0 <==> x !in ls
  {
    if ls == [] then 0
    else (if ls[0] == x then 1 else 0) + Count(ls[1..], x)
  }

  /** `ls.index(x)`: the first position holding `x`, or nil. */
  function IndexOf(ls: seq<string>, x: string): (r: Option<nat>)
    ensures r.None? <==> x !in ls
    ensures r.Some? ==> r.value < |ls| && ls[r.value] == x && x !in ls[..r.value]
  {
    if ls == [] then None
    else if ls[0] == x then Some(0)
    else
      match IndexOf(ls[1..], x)
      case None => None
      case Some(i) =>
        assert ls[..i + 1] == [ls[0]] + ls[1..][..i];
        Some(i + 1)
  }

  /**
   * `lines[lines.index(id)] = name`. When `id` is absent the index is nil and
   * Ruby raises a TypeError; that is `None` here.
   */
  function ReplaceFirst(ls: seq<string>, id: string, name: string): (r: Option<seq<string>>)
    ensures r.Some? <==> id in ls
    ensures r.Some? ==>
      var k := IndexOf(ls, id).value;
      |r.value| == |ls| && r.value[k] == name &&
      forall j :: 0 <= j < |ls| && j != k ==> r.value[j] == ls[j]
  {
    match IndexOf(ls, id)
    case None => None
    case Some(k) => Some(ls[k := name])
  }

  /** `ls.reject { |other| x == other }`. */
  function Reject(ls: seq<string>, x: string): (r: seq<string>)
    ensures x !in r
    ensures |r| == |ls| - Count(ls, x)
    ensures forall y :: y != x ==> (y in r <==> y in ls)
  {
    if ls == [] then []
    else if ls[0] == x then Reject(ls[1..], x)
    else [ls[0]] + Reject(ls[1..], x)
  }

  /** No two entries are equal: the roster invariant the validator is meant to keep. */
  predicate Distinct(ls: seq<string>)
  {
    forall i, j :: 0 <= i < j < |ls| ==> ls[i] != ls[j]
  }

  /** Rejecting entries keeps a duplicate-free list duplicate-free. */
  lemma {:induction false} RejectDistinct(ls: seq<string>, x: string)
    requires Distinct(ls)
    ensures Distinct(Reject(ls, x))
  {
    if ls != [] {
      var rest := ls[1..];
      assert Distinct(rest) by {
        forall i, j | 0 <= i < j < |rest| ensures rest[i] != rest[j] {
          assert rest[i] == ls[i + 1] && rest[j] == ls[j + 1];
        }
      }
      RejectDistinct(rest, x);
      if ls[0] != x {
        var r := Reject(ls, x);
        assert ls[0] !in rest by {
          forall j | 0 <= j < |rest| ensures rest[j] != ls[0] {
            assert rest[j] == ls[j + 1];
          }
        }
        assert ls[0] !in Reject(rest, x);
        forall i, j | 0 <= i < j < |r| ensures r[i] != r[j] {
          if i == 0 {
            assert r[j] == Reject(rest, x)[j - 1];
          } else {
            assert r[i] == Reject(rest, x)[i - 1] && r[j] == Reject(rest, x)[j - 1];
          }
        }
      }
    }
  }

  /** Adding a value that is not there keeps a list duplicate-free. */
  lemma SnocDistinct(ls: seq<string>, x: string)
    requires Distinct(ls) && x !in ls
    ensures Distinct(ls + [x])
  {
    var r := ls + [x];
    forall i, j | 0 <= i < j < |r| ensures r[i] != r[j] {
      assert r[i] == ls[i];
    }
  }

  /** A prefix of a duplicate-free list is duplicate-free. */
  lemma PrefixDistinct(ls: seq<string>, n: nat)
    requires Distinct(ls) && n <= |ls|
    ensures Distinct(ls[..n])
  {
  }

  /** Overwriting position `k` moves one count from the old entry to the new one. */
  lemma {:induction false} CountUpdate(ls: seq<string>, k: nat, y: string, x: string)
    requires k < |ls|
    ensures Count(ls[k := y], x) ==
      Count(ls, x) - (if ls[k] == x then 1 else 0) + (if y == x then 1 else 0)
  {
    if k > 0 {
      assert ls[k := y][1..] == ls[1..][k - 1 := y];
      CountUpdate(ls[1..], k - 1, y, x);
    }
  }

  /** Replacing the first `id` by a different `name` removes one `id` and adds one `name`. */
  lemma ReplaceFirstCounts(ls: seq<string>, id: string, name: string)
    requires id in ls && id != name
    ensures Count(ReplaceFirst(ls, id, name).value, id) == Count(ls, id) - 1
    ensures Count(ReplaceFirst(ls, id, name).value, name) == Count(ls, name) + 1
  {
    var k := IndexOf(ls, id).value;
    assert ReplaceFirst(ls, id, name).value == ls[k := name];
    CountUpdate(ls, k, name, id);
    CountUpdate(ls, k, name, name);
  }

  /** Replacing an entry by a non-empty line keeps the list storable. */
  lemma ReplaceFirstWellFormed(ls: seq<string>, id: string, name: string)
    requires WellFormed(ls) && id in ls && IsLine(name) && name != []
    ensures WellFormed(ReplaceFirst(ls, id, name).value)
  {
    var r := ReplaceFirst(ls, id, name).value;
    assert forall j :: 0 <= j < |r| ==> r[j] == name || r[j] == ls[j];
  }

  /** Rejecting keeps the relative order: it distributes over concatenation. */
  lemma {:induction false} RejectAppend(a: seq<string>, b: seq<string>, x: string)
    ensures Reject(a + b, x) == Reject(a, x) + Reject(b, x)
  {
    if a != [] {
      assert (a + b)[1..] == a[1..] + b;
      RejectAppend(a[1..], b, x);
    } else {
      assert a + b == b;
    }
  }

  /** Rejecting an absent entry changes nothing. */
  lemma {:induction false} RejectAbsent(ls: seq<string>, x: string)
    requires x !in ls
    ensures Reject(ls, x) == ls
  {
    if ls != [] {
      RejectAbsent(ls[1..], x);
    }
  }

  /** Every kept entry is an entry of the input, so lines stay lines. */
  lemma {:induction false} RejectAllLines(ls: seq<string>, x: string)
    requires AllLines(ls)
    ensures AllLines(Reject(ls, x))
  {
    if ls != [] {
      RejectAllLines(ls[1..], x);
    }
  }
}
