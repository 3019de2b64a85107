/** One camera's segments, kept in name order as the program's ordered map keeps them. */
module SegmentBucket {
  import opened Wrappers
  import Sets
  import opened Bytes
  import opened SegmentName

  datatype Entry = Entry(name: string, body: seq<byte>, at: int)

  type Bucket = seq<Entry>

  predicate Before(a: Entry, b: Entry) { Compare(a.name, b.name) == Less }

  ghost predicate Sorted(b: Bucket) { forall i, j :: 0 <= i < j < |b| ==> Before(b[i], b[j]) }

  /** Insert, replacing an entry of the same name. */
  function Insert(b: Bucket, e: Entry): Bucket {
    if b == [] then [e]
    else match Compare(e.name, b[0].name)
      case Less => [e] + b
      case Equal => [e] + b[1..]
      case Greater => [b[0]] + Insert(b[1..], e)
  }

  function Find(b: Bucket, name: string): (r: Option<Entry>)
    ensures r.Some? ==> r.value in b && r.value.name == name
    ensures r.None? ==> forall e :: e in b ==> e.name != name
  {
    if b == [] then None else if b[0].name == name then Some(b[0]) else Find(b[1..], name)
  }

  function Remove(b: Bucket, name: string): Bucket {
    if b == [] then [] else if b[0].name == name then b[1..] else [b[0]] + Remove(b[1..], name)
  }

  /** The total of the bodies' lengths. */
  function Size(b: Bucket): nat { if b == [] then 0 else |b[0].body| + Size(b[1..]) }

  function Last(b: Bucket, n: nat): (r: Bucket)
    ensures |r| == if |b| < n then |b| else n
  {
    if |b| <= n then b else b[|b| - n..]
  }

  /** `kept` is the `n` of `all` that come last by name, in order: whatever is left out comes before
      whatever is kept. */
  ghost predicate Newest(all: Bucket, kept: Bucket, n: nat) {
    && |kept| == (if |all| < n then |all| else n)
    && Sorted(kept) && (forall e :: e in kept ==> e in all)
    && (forall d, e :: d in all && d !in kept && e in kept ==> Before(d, e))
  }

  lemma LastIsNewest(b: Bucket, n: nat)
    requires Sorted(b)
    ensures Newest(b, Last(b, n), n)
  {
    hide Before;
    var kept := Last(b, n);
    var skip := |b| - |kept|;
    assert kept == b[skip..];
    hide Last;
    SuffixSorted(b, skip);
    forall d, e | d in b && d !in kept && e in kept ensures Before(d, e) { LeftOutBefore(b, skip, d, e); }
  }

  lemma SuffixSorted(b: Bucket, skip: nat)
    requires Sorted(b) && skip <= |b|
    ensures Sorted(b[skip..]) && forall e :: e in b[skip..] ==> e in b
  {
    hide Before;
    assert forall i :: 0 <= i < |b[skip..]| ==> b[skip..][i] == b[skip + i];
  }

  lemma LeftOutBefore(b: Bucket, skip: nat, d: Entry, e: Entry)
    requires Sorted(b) && skip <= |b| && d in b && d !in b[skip..] && e in b[skip..]
    ensures Before(d, e)
  {
    hide Before;
    var i :| 0 <= i < |b| && b[i] == d;
    var j :| skip <= j < |b| && b[j] == e;
    assert i < skip;
  }

  /** There is only one such choice. */
  lemma {:induction false} OneNewest(all: Bucket, kept: Bucket, other: Bucket, n: nat)
    requires Newest(all, kept, n) && Newest(all, other, n)
    ensures kept == other
  {
    hide Before, Newest;
    assert forall e :: e in kept <==> e in other by {
      NewestMembers(all, kept, other, n);
      NewestMembers(all, other, kept, n);
    }
    assert Sorted(kept) && Sorted(other) by { NewestSorted(all, kept, n); NewestSorted(all, other, n); }
    SameEntries(kept, other);
  }

  lemma NewestSorted(all: Bucket, kept: Bucket, n: nat)
    requires Newest(all, kept, n)
    ensures Sorted(kept)
  {
  }

  /** Entries in name order are all different. */
  lemma SortedDistinct(b: Bucket)
    requires Sorted(b)
    ensures |(set e | e in b)| == |b|
    decreases |b|
  {
    if b == [] {
      assert (set e | e in b) == {};
    } else {
      SortedTail(b);
      SortedDistinct(b[1..]);
      assert (set e | e in b) == {b[0]} + (set e | e in b[1..]);
    }
  }

  lemma NewestMembers(all: Bucket, kept: Bucket, other: Bucket, n: nat)
    requires Newest(all, kept, n) && Newest(all, other, n)
    ensures forall e :: e in kept ==> e in other
  {
    hide Before, Sorted;
    var ks, os := set e | e in kept, set e | e in other;
    SortedDistinct(kept);
    SortedDistinct(other);
    if e :| e in kept && e !in other {
      if os <= ks - {e} { Sets.SubsetSize(os, ks - {e}); }
      var o :| o in os && o !in ks;
      BothWays(e, o);
    }
  }

  lemma BothWays(d: Entry, e: Entry)
    ensures !(Before(d, e) && Before(e, d))
  {
    CompareAntisymmetric(d.name, e.name);
  }

  lemma {:induction false} SameEntries(b: Bucket, c: Bucket)
    requires Sorted(b) && Sorted(c) && forall e :: e in b <==> e in c
    ensures b == c
    decreases |b|
  {
    assert |c| > 0 ==> c[0] in b;
    if b != [] {
      assert b[0] in c && c[0] in b;
      SortedTail(b);
      SortedTail(c);
      if b[0] != c[0] { CompareAntisymmetric(b[0].name, c[0].name); }
      assert forall e :: e in b[1..] <==> e in c[1..];
      SameEntries(b[1..], c[1..]);
    }
  }

  // ----- Insertion -----------------------------------------------------------

  lemma BeforeTransitive(a: Entry, b: Entry, c: Entry)
    requires Before(a, b) && Before(b, c)
    ensures Before(a, c)
  {
    CompareTransitive(a.name, b.name, c.name);
  }

  lemma SortedTail(b: Bucket)
    requires Sorted(b) && b != []
    ensures Sorted(b[1..]) && forall x :: x in b <==> x == b[0] || x in b[1..]
    ensures forall x :: x in b[1..] ==> Before(b[0], x) && x.name != b[0].name
  {
    assert b == [b[0]] + b[1..];
    forall x | x in b[1..] ensures Before(b[0], x) && x.name != b[0].name {
      CompareAntisymmetric(b[0].name, x.name);
    }
  }

  lemma SortedCons(h: Entry, rest: Bucket)
    requires Sorted(rest) && forall x :: x in rest ==> Before(h, x)
    ensures Sorted([h] + rest) && forall x :: x in [h] + rest <==> x == h || x in rest
  {
  }

  lemma {:induction false} InsertMembers(b: Bucket, e: Entry)
    requires Sorted(b)
    ensures forall x :: x in Insert(b, e) <==> x == e || (x in b && x.name != e.name)
    ensures Sorted(Insert(b, e))
    decreases |b|
  {
    if b != [] {
      hide Sorted, Compare;
      CompareAntisymmetric(e.name, b[0].name);
      var tail := b[1..];
      SortedTail(b);
      match Compare(e.name, b[0].name)
      case Less =>
        forall x | x in b ensures Before(e, x) && x.name != e.name {
          if x != b[0] { BeforeTransitive(e, b[0], x); }
          CompareAntisymmetric(e.name, x.name);
        }
        SortedCons(e, b);
      case Equal =>
        SortedCons(e, tail);
      case Greater =>
        InsertMembers(tail, e);
        SortedCons(b[0], Insert(tail, e));
    }
  }

  lemma {:induction false} InsertSize(b: Bucket, e: Entry)
    requires Sorted(b)
    ensures Size(Insert(b, e)) ==
            Size(b) + |e.body| - (if Find(b, e.name).Some? then |Find(b, e.name).value.body| else 0)
    decreases |b|
  {
    if b != [] {
      CompareAntisymmetric(e.name, b[0].name);
      assert b == [b[0]] + b[1..];
      match Compare(e.name, b[0].name)
      case Less =>
        assert ([e] + b)[1..] == b;
        forall x | x in b ensures x.name != e.name {
          var j :| 0 <= j < |b| && b[j] == x;
          if j > 0 { BeforeTransitive(e, b[0], b[j]); }
          CompareAntisymmetric(e.name, x.name);
        }
      case Equal =>
        assert ([e] + b[1..])[1..] == b[1..];
      case Greater =>
        InsertSize(b[1..], e);
        assert ([b[0]] + Insert(b[1..], e))[1..] == Insert(b[1..], e);
    }
  }

  // ----- Removal --------------------------------------------------------------

  lemma {:induction false} RemoveMembers(b: Bucket, name: string)
    requires Sorted(b)
    ensures forall x :: x in Remove(b, name) <==> x in b && x.name != name
    ensures Sorted(Remove(b, name))
    ensures Size(Remove(b, name)) == Size(b) - (if Find(b, name).Some? then |Find(b, name).value.body| else 0)
    decreases |b|
  {
    if b != [] {
      hide Sorted, Compare;
      SortedTail(b);
      if b[0].name != name {
        RemoveMembers(b[1..], name);
        var rest := Remove(b[1..], name);
        SortedCons(b[0], rest);
        assert ([b[0]] + rest)[1..] == rest;
      }
    }
  }

  lemma FindMember(b: Bucket, e: Entry)
    requires Sorted(b) && e in b
    ensures Find(b, e.name) == Some(e)
    decreases |b|
  {
    if b[0] != e {
      var j :| 0 < j < |b| && b[j] == e;
      CompareAntisymmetric(b[0].name, e.name);
      assert b[1..][j - 1] == e;
      FindMember(b[1..], e);
    }
  }

  // ----- A stream of pushes -----------------------------------------------------

  lemma {:induction false} InsertAtEnd(b: Bucket, e: Entry)
    requires forall i :: 0 <= i < |b| ==> Before(b[i], e)
    ensures Insert(b, e) == b + [e]
    decreases |b|
  {
    if b != [] {
      CompareAntisymmetric(b[0].name, e.name);
      InsertAtEnd(b[1..], e);
    }
  }

  /** Entries named by increasing numbers are in order, at any width. */
  lemma NumberedIsSorted(numbers: seq<nat>, b: Bucket)
    requires |numbers| == |b| && forall i, j :: 0 <= i < j < |numbers| ==> numbers[i] < numbers[j]
    requires forall i :: 0 <= i < |b| ==> b[i].name == NameOf(numbers[i])
    ensures Sorted(b)
  {
    forall i, j | 0 <= i < j < |b| ensures Before(b[i], b[j]) {
      NamesOrderAsNumbers(numbers[i], numbers[j]);
    }
  }

  /** What a bucket becomes when entries are pushed onto it in order, each push trimming it to `max`. */
  function Fed(b: Bucket, pushes: seq<Entry>, max: nat): Bucket { if pushes == [] then b else Last(b + pushes, max) }

  /** One more push in order. */
  lemma FedMore(b: Bucket, pushes: seq<Entry>, e: Entry, max: nat)
    requires Sorted(b + (pushes + [e]))
    ensures Sorted(b + pushes) && Last(Insert(Fed(b, pushes, max), e), max) == Fed(b, pushes + [e], max)
  {
    hide Insert, Before;
    var all, held := b + (pushes + [e]), Fed(b, pushes, max);
    assert all == b + pushes + [e];
    assert forall i :: 0 <= i < |b + pushes| ==> all[i] == (b + pushes)[i];
    if pushes == [] { assert b + pushes == b; }
    forall i | 0 <= i < |held| ensures Before(held[i], e) {
      assert held[i] == all[i + |b + pushes| - |held|] && e == all[|b + pushes|];
    }
    InsertAtEnd(held, e);
    LastSnoc(b + pushes, e, max);
  }

  lemma LastSnoc(b: Bucket, e: Entry, n: nat)
    ensures Last(Last(b, n) + [e], n) == Last(b + [e], n)
  {
  }

  // ----- Snapshots ----------------------------------------------------------------

  datatype Snapshot = NoCamera | Segments(bodies: seq<seq<byte>>)

  function Bodies(b: Bucket): (r: seq<seq<byte>>)
    ensures |r| == |b| && forall i :: 0 <= i < |b| ==> r[i] == b[i].body
  {
    seq(|b|, i requires 0 <= i < |b| => b[i].body)
  }
}
