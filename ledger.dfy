/** The visit ledger shared by the webapp variants: the purchased list and the
    hold list (booth codes), the action history, and the payloads posted to the
    spreadsheet backend. Also the sequence operations the handlers use on them:
    `filter`, `lastIndexOf` with `splice`, and the unvisited-candidate filter. */
module Ledger {
  import opened Booths

  datatype ActionKind = Purchase | Hold

  /** A history entry `{type, space}`. */
  datatype Action = Action(kind: ActionKind, space: string)

  /** A post body: `{space, undo}` for one booth, `{spaces, undo: true}` for a batch. */
  datatype Payload = Single(space: string, undo: bool) | Batch(spaces: seq<string>)

  /** `postUpdate(url, payload)`: the payloads actually sent, which is none
      when the backend URL is empty and the one payload otherwise. */
  function PostUpdate(url: string, payload: Payload): (sent: seq<Payload>)
    ensures sent == [] <==> url == ""
    ensures forall q :: q in sent ==> q == payload
  {
    if url == "" then [] else [payload]
  }

  /** `a` is `b` with some elements deleted, the rest kept in order. */
  ghost predicate IsSubsequence<T>(a: seq<T>, b: seq<T>)
    decreases |b|
  {
    if b == [] then a == []
    else (a != [] && a[0] == b[0] && IsSubsequence(a[1..], b[1..])) || IsSubsequence(a, b[1..])
  }

  /** `Array.prototype.filter`. */
  function Filter<T>(s: seq<T>, keep: T -> bool): (r: seq<T>)
    ensures |r| <= |s|
    ensures forall x :: x in r ==> x in s && keep(x)
  {
    if s == [] then []
    else if keep(s[0]) then [s[0]] + Filter(s[1..], keep)
    else Filter(s[1..], keep)
  }

  /** The filter keeps exactly the elements that pass, each as often as before. */
  lemma {:induction false} FilterCount<T>(s: seq<T>, keep: T -> bool, x: T)
    ensures multiset(Filter(s, keep))[x] == if keep(x) then multiset(s)[x] else 0
  {
    if s != [] {
      FilterCount(s[1..], keep, x);
      assert s == [s[0]] + s[1..];
    }
  }

  /** ... and in their original order. */
  lemma {:induction false} FilterSubsequence<T>(s: seq<T>, keep: T -> bool)
    ensures IsSubsequence(Filter(s, keep), s)
  {
    if s != [] {
      FilterSubsequence(s[1..], keep);
      if keep(s[0]) {
        assert Filter(s, keep)[1..] == Filter(s[1..], keep);
      }
    }
  }

  /** A filter that keeps everything changes nothing. */
  lemma {:induction false} FilterAll<T>(s: seq<T>, keep: T -> bool)
    requires forall i :: 0 <= i < |s| ==> keep(s[i])
    ensures Filter(s, keep) == s
  {
    if s != [] {
      FilterAll(s[1..], keep);
    }
  }

  /** `s.filter(y => y !== x)`. */
  function RemoveAll(s: seq<string>, x: string): (r: seq<string>)
    ensures x !in r
    ensures forall y :: y != x ==> multiset(r)[y] == multiset(s)[y]
  {
    var r := Filter(s, y => y != x);
    forall y | y != x ensures multiset(r)[y] == multiset(s)[y] {
      FilterCount(s, y => y != x, y);
    }
    r
  }

  /** Removing a fresh code right after appending it gives the list back. */
  lemma RemoveAllAfterAppend(s: seq<string>, x: string)
    requires x !in s
    ensures RemoveAll(s + [x], x) == s
  {
    FilterAll(s, y => y != x);
    assert (s + [x])[..|s|] == s;
    FilterAppend(s, x, y => y != x);
  }

  /** Filtering a list that grew by one element extends the filtered list by that
      element exactly when it passes. */
  lemma {:induction false} FilterAppend<T>(s: seq<T>, x: T, keep: T -> bool)
    ensures Filter(s + [x], keep) == Filter(s, keep) + (if keep(x) then [x] else [])
  {
    if s == [] {
      assert [] + [x] == [x];
    } else {
      assert (s + [x])[1..] == s[1..] + [x];
      FilterAppend(s[1..], x, keep);
    }
  }

  /** No code occurs twice. */
  predicate NoDuplicates(s: seq<string>)
  {
    forall i, j :: 0 <= i < j < |s| ==> s[i] != s[j]
  }

  /** `s.lastIndexOf(x)`. */
  function LastIndexOf(s: seq<string>, x: string): (r: int)
    ensures -1 <= r < |s|
    ensures r == -1 <==> x !in s
    ensures r >= 0 ==> s[r] == x && forall j :: r < j < |s| ==> s[j] != x
  {
    if s == [] then -1
    else if s[|s| - 1] == x then |s| - 1
    else LastIndexOf(s[..|s| - 1], x)
  }

  /** `idx = s.lastIndexOf(x); if (idx > -1) s.splice(idx, 1)`. */
  function RemoveLast(s: seq<string>, x: string): (r: seq<string>)
  {
    var i := LastIndexOf(s, x);
    if i > -1 then s[..i] + s[i + 1..] else s
  }

  /** Exactly one occurrence of x goes, when there is one; nothing else changes. */
  lemma RemoveLastCount(s: seq<string>, x: string)
    ensures x in s ==> multiset(RemoveLast(s, x)) == multiset(s) - multiset{x}
    ensures x !in s ==> RemoveLast(s, x) == s
    ensures |RemoveLast(s, x)| == if x in s then |s| - 1 else |s|
  {
    var i := LastIndexOf(s, x);
    if i > -1 {
      assert s == s[..i] + [x] + s[i + 1..];
    }
  }

  /** Undoing an append of x removes that very entry again. */
  lemma RemoveLastAfterAppend(s: seq<string>, x: string)
    ensures RemoveLast(s + [x], x) == s
  {
    assert (s + [x])[..|s|] == s;
  }

  /** Everything after the removed occurrence is kept; in particular the list
      before it is untouched: the removal is the last occurrence, not the first. */
  lemma RemoveLastKeepsPrefix(s: seq<string>, x: string)
    requires x in s
    ensures s[..LastIndexOf(s, x)] == RemoveLast(s, x)[..LastIndexOf(s, x)]
    ensures x !in s[LastIndexOf(s, x) + 1..]
  {
  }

  /** The history entries of the other kind, in order. */
  function DropKind(h: seq<Action>, k: ActionKind): (r: seq<Action>)
    ensures forall a :: a in r <==> a in h && a.kind != k
  {
    var r := Filter(h, (a: Action) => a.kind != k);
    forall a | a in h && a.kind != k ensures a in r {
      FilterCount(h, (a: Action) => a.kind != k, a);
    }
    r
  }

  /** The wantToBuy entries whose code is in neither list, in their original order. */
  function Unvisited(wantToBuy: seq<Booth>, purchased: seq<string>, hold: seq<string>): (r: seq<Booth>)
    ensures forall b :: b in r <==> b in wantToBuy && b.space !in purchased && b.space !in hold
  {
    var keep := (b: Booth) => b.space !in purchased && b.space !in hold;
    var r := Filter(wantToBuy, keep);
    forall b | b in wantToBuy && keep(b) ensures b in r {
      FilterCount(wantToBuy, keep, b);
    }
    r
  }

  lemma UnvisitedInOrder(wantToBuy: seq<Booth>, purchased: seq<string>, hold: seq<string>)
    ensures IsSubsequence(Unvisited(wantToBuy, purchased, hold), wantToBuy)
  {
    FilterSubsequence(wantToBuy, (b: Booth) => b.space !in purchased && b.space !in hold);
  }

  /** With nothing bought or held every entry remains a candidate. */
  lemma UnvisitedFresh(wantToBuy: seq<Booth>)
    ensures Unvisited(wantToBuy, [], []) == wantToBuy
  {
    FilterAll(wantToBuy, (b: Booth) => b.space !in [] && b.space !in []);
  }
}
