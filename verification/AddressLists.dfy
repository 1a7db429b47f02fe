/** Address slices: sorting them and taking one from another. */
module AddressLists {
  import opened Cidr

  function InsertKeep(x: nat, xs: seq<nat>): seq<nat> {
    if xs == [] || x <= xs[0] then [x] + xs else [xs[0]] + InsertKeep(x, xs[1..])
  }

  /** `sort.Slice` by address; repeated addresses stay. */
  function SortAll(xs: seq<nat>): seq<nat> {
    if xs == [] then [] else InsertKeep(xs[0], SortAll(xs[1..]))
  }

  predicate Ascending(xs: seq<nat>) {
    forall i, j :: 0 <= i < j < |xs| ==> xs[i] <= xs[j]
  }

  lemma {:induction false} InsertKeepMembers(x: nat, xs: seq<nat>)
    ensures forall a :: a in InsertKeep(x, xs) <==> a == x || a in xs
    ensures multiset(InsertKeep(x, xs)) == multiset(xs) + multiset{x}
  {
    if xs != [] && x > xs[0] {
      InsertKeepMembers(x, xs[1..]);
      assert xs == [xs[0]] + xs[1..];
    }
  }

  lemma {:induction false} InsertKeepOrder(x: nat, xs: seq<nat>)
    requires Ascending(xs)
    ensures Ascending(InsertKeep(x, xs)) && (Distinct(xs) && x !in xs ==> Distinct(InsertKeep(x, xs)))
  {
    if xs != [] && x > xs[0] {
      InsertKeepOrder(x, xs[1..]);
      InsertKeepMembers(x, xs[1..]);
      OrderCons(xs[0], InsertKeep(x, xs[1..]));
    }
  }

  lemma OrderCons(h: nat, rest: seq<nat>)
    requires Ascending(rest) && forall a | a in rest :: h <= a
    ensures Ascending([h] + rest)
    ensures Distinct(rest) && h !in rest ==> Distinct([h] + rest)
  {
    forall i | 0 <= i < |rest| ensures h <= rest[i] {
      assert rest[i] in rest;
    }
  }

  /** Sorting orders the addresses and keeps all of them. */
  lemma {:induction false} SortAllMeaning(xs: seq<nat>)
    ensures var r := SortAll(xs);
      && Ascending(r) && multiset(r) == multiset(xs)
      && Elems(r) == Elems(xs) && |r| == |xs| && (Distinct(xs) ==> Distinct(r))
  {
    hide InsertKeep;
    if xs != [] {
      var rest := SortAll(xs[1..]);
      SortAllMeaning(xs[1..]);
      InsertKeepOrder(xs[0], rest);
      InsertKeepMembers(xs[0], rest);
      assert xs == [xs[0]] + xs[1..];
      assert forall a :: a in rest <==> a in Elems(rest);
      assert forall a :: a in xs[1..] <==> a in Elems(xs[1..]);
      assert |InsertKeep(xs[0], rest)| == |multiset(InsertKeep(xs[0], rest))|;
    }
  }

  /** The first `limit` addresses, or all of them if the limit is not positive. */
  function Limited(xs: seq<nat>, limit: int): seq<nat> {
    if 0 < limit < |xs| then xs[..limit] else xs
  }

  lemma DiffStep(src: seq<nat>, i: nat, ex: set<nat>)
    requires i < |src|
    ensures Diff(src[i..], ex) == (if src[i] in ex then [] else [src[i]]) + Diff(src[i + 1..], ex)
  {
  }

  /** `getIPDiffSet`: the source addresses not excluded, at most `expectCount` of them, sorted on request. */
  method GetIPDiffSet(src: seq<nat>, exclude: seq<nat>, sorted: bool, expectCount: int) returns (result: seq<nat>)
    ensures var kept := Limited(Diff(src, Elems(exclude)), expectCount);
      result == if sorted then SortAll(kept) else kept
  {
    hide Diff, SortAll;
    var marks: set<nat> := {};
    for i := 0 to |exclude|
      invariant marks == Elems(exclude[..i])
    {
      assert exclude[..i + 1] == exclude[..i] + [exclude[i]];
      marks := marks + {exclude[i]};
    }
    assert exclude[..|exclude|] == exclude;
    var i := 0;
    result := [];
    DiffOfNothing(marks);
    assert src[|src|..] == [] && src[0..] == src;
    while i < |src|
      invariant 0 <= i <= |src| && result + Diff(src[i..], marks) == Diff(src, marks)
      invariant expectCount > 0 ==> |result| < expectCount
    {
      DiffStep(src, i, marks);
      if src[i] !in marks {
        result := result + [src[i]];
        if expectCount > 0 && |result| >= expectCount {
          PrefixLimited(result, Diff(src[i + 1..], marks), expectCount);
          break;
        }
      }
      i := i + 1;
    }
    assert result == Limited(Diff(src, marks), expectCount);
    if sorted && |result| > 1 {
      result := SortAll(result);
    } else {
      SortShort(result);
    }
  }

  /** The kept addresses stand at these increasing places of the source, and no other is free of exclusion. */
  predicate Places(src: seq<nat>, ex: set<nat>, kept: seq<nat>, at: seq<nat>) {
    && |at| == |kept| && (forall i :: 0 <= i < |at| ==> at[i] < |src| && src[at[i]] == kept[i])
    && (forall i, j :: 0 <= i < j < |at| ==> at[i] < at[j])
    && (forall k :: 0 <= k < |src| ==> (src[k] in ex <==> k !in at))
  }

  /** The difference keeps the order of the source. */
  lemma {:induction false} DiffInOrder(src: seq<nat>, ex: set<nat>) returns (at: seq<nat>)
    ensures Places(src, ex, Diff(src, ex), at)
  {
    if src == [] {
      at := [];
    } else {
      hide Places;
      var rest := DiffInOrder(src[1..], ex);
      var moved := Moved(rest);
      if src[0] in ex {
        at := moved;
        PlacesSkip(src, ex, Diff(src[1..], ex), rest);
      } else {
        at := [0] + moved;
        PlacesKeep(src, ex, Diff(src[1..], ex), rest);
      }
    }
  }

  function Moved(rest: seq<nat>): (moved: seq<nat>)
    ensures |moved| == |rest| && forall i :: 0 <= i < |rest| ==> moved[i] == rest[i] + 1
  {
    seq(|rest|, i requires 0 <= i < |rest| => rest[i] + 1)
  }

  lemma MovedMembers(rest: seq<nat>, k: nat)
    ensures k + 1 in Moved(rest) <==> k in rest
    ensures 0 !in Moved(rest)
  {
    if k in rest {
      var i :| 0 <= i < |rest| && rest[i] == k;
      assert Moved(rest)[i] == k + 1;
    }
  }

  lemma PlacesSkip(src: seq<nat>, ex: set<nat>, kept: seq<nat>, rest: seq<nat>)
    requires src != [] && src[0] in ex && Places(src[1..], ex, kept, rest)
    ensures Places(src, ex, kept, Moved(rest))
  {
    forall k | 0 <= k < |src| ensures src[k] in ex <==> k !in Moved(rest) {
      if k > 0 { assert src[k] == src[1..][k - 1]; }
      MovedMembers(rest, if k > 0 then k - 1 else 0);
    }
  }

  lemma PlacesKeep(src: seq<nat>, ex: set<nat>, kept: seq<nat>, rest: seq<nat>)
    requires src != [] && src[0] !in ex && Places(src[1..], ex, kept, rest)
    ensures Places(src, ex, [src[0]] + kept, [0] + Moved(rest))
  {
    var at := [0] + Moved(rest);
    assert at[0] == 0;
    forall k | 0 <= k < |src| ensures src[k] in ex <==> k !in at {
      if k > 0 { assert src[k] == src[1..][k - 1]; }
      MovedMembers(rest, if k > 0 then k - 1 else 0);
      assert k in at <==> k == 0 || k in Moved(rest);
    }
  }

  lemma PrefixLimited(xs: seq<nat>, rest: seq<nat>, limit: int)
    requires limit > 0 && |xs| == limit
    ensures Limited(xs + rest, limit) == xs
  {
  }

  lemma DiffOfNothing(ex: set<nat>)
    ensures Diff([], ex) == []
  {
  }

  lemma SortShort(xs: seq<nat>)
    ensures |xs| <= 1 ==> SortAll(xs) == xs
  {
  }

  /** `IsDiffIPSet`: looking for one address is enough to tell whether any is left. */
  lemma OneIsEnough(src: seq<nat>, ex: set<nat>)
    ensures |Limited(Diff(src, ex), 1)| > 0 <==> exists a :: a in src && a !in ex
  {
  }
}
