/** Order-preserving de-duplication (the `seen` set plus output list idiom used across the
    ingestion code) and the sort of a list of strings. */
module Collections {
  import opened Text

  function Same(s: string): string { s }

  predicate HasKey(d: seq<string>, k: string, key: string -> string) {
    exists y :: y in d && key(y) == k
  }

  predicate KeyUnique(d: seq<string>, key: string -> string) {
    forall i, j :: 0 <= i < j < |d| ==> key(d[i]) != key(d[j])
  }

  /** Keeps an item only when no earlier kept item has the same key: the loop
      `if key in seen: continue; seen.add(key); out.append(raw)`. */
  function DedupBy(xs: seq<string>, key: string -> string): seq<string>
    decreases |xs|
  {
    if xs == [] then []
    else
      var d := DedupBy(xs[..|xs| - 1], key);
      if HasKey(d, key(xs[|xs| - 1]), key) then d else d + [xs[|xs| - 1]]
  }

  /** One more step of the loop that DedupBy describes. */
  lemma DedupByStep(xs: seq<string>, i: nat, key: string -> string)
    requires i < |xs|
    ensures DedupBy(xs[..i + 1], key)
            == if HasKey(DedupBy(xs[..i], key), key(xs[i]), key) then DedupBy(xs[..i], key)
               else DedupBy(xs[..i], key) + [xs[i]]
  {
    assert xs[..i + 1][..i] == xs[..i];
  }

  /** Every item whose key differs from `k`. */
  function DropKey(xs: seq<string>, k: string, key: string -> string): (r: seq<string>)
    ensures |r| <= |xs|
  {
    if xs == [] then []
    else if key(xs[0]) == k then DropKey(xs[1..], k, key)
    else [xs[0]] + DropKey(xs[1..], k, key)
  }

  /** Reference reading of first-seen de-duplication: keep the first item, drop every later
      item with its key, repeat. */
  function FirstSeen(xs: seq<string>, key: string -> string): seq<string>
    decreases |xs|
  {
    if xs == [] then [] else [xs[0]] + FirstSeen(DropKey(xs[1..], key(xs[0]), key), key)
  }

  lemma DropKeyMembers(xs: seq<string>, k: string, key: string -> string)
    ensures forall y :: y in DropKey(xs, k, key) <==> y in xs && key(y) != k
  {
    if xs != [] {
      DropKeyMembers(xs[1..], k, key);
      assert xs == [xs[0]] + xs[1..];
    }
  }

  lemma DropKeySnoc(xs: seq<string>, x: string, k: string, key: string -> string)
    ensures DropKey(xs + [x], k, key) == DropKey(xs, k, key) + (if key(x) == k then [] else [x])
  {
    if xs != [] {
      assert (xs + [x])[1..] == xs[1..] + [x];
      DropKeySnoc(xs[1..], x, k, key);
    }
  }

  lemma {:induction false} FirstSeenKeys(xs: seq<string>, k: string, key: string -> string)
    ensures HasKey(FirstSeen(xs, key), k, key) <==> HasKey(xs, k, key)
    decreases |xs|
  {
    if xs != [] {
      var rest := DropKey(xs[1..], key(xs[0]), key);
      DropKeyMembers(xs[1..], key(xs[0]), key);
      FirstSeenKeys(rest, k, key);
      var r := FirstSeen(xs, key);
      assert r == [xs[0]] + FirstSeen(rest, key);
      if HasKey(xs, k, key) && key(xs[0]) != k {
        var y :| y in xs && key(y) == k;
        assert y in xs[1..];
        assert y in rest;
      }
      if HasKey(r, k, key) {
        var y :| y in r && key(y) == k;
        if y != xs[0] {
          assert y in FirstSeen(rest, key);
        }
      }
    }
  }

  lemma HasKeyDropKey(t: seq<string>, kh: string, k: string, key: string -> string)
    ensures HasKey(DropKey(t, kh, key), k, key) <==> k != kh && HasKey(t, k, key)
  {
    DropKeyMembers(t, kh, key);
    if k != kh && HasKey(t, k, key) {
      var y :| y in t && key(y) == k;
      assert y in DropKey(t, kh, key);
    }
  }

  lemma HasKeyCons(h: string, t: seq<string>, k: string, key: string -> string)
    ensures HasKey([h] + t, k, key) <==> key(h) == k || HasKey(t, k, key)
  {
    if HasKey([h] + t, k, key) {
      var y :| y in [h] + t && key(y) == k;
      if y != h {
        assert y in t;
      }
    }
    if HasKey(t, k, key) {
      var y :| y in t && key(y) == k;
      assert y in [h] + t;
    }
    if key(h) == k {
      assert h in [h] + t;
    }
  }

  /** Appending one item to the input appends it to the reference result exactly when its
      key is new. */
  lemma {:induction false} FirstSeenSnoc(xs: seq<string>, x: string, key: string -> string)
    ensures FirstSeen(xs + [x], key)
         == FirstSeen(xs, key) + (if HasKey(xs, key(x), key) then [] else [x])
    decreases |xs|
  {
    if xs == [] {
      assert FirstSeen([x], key) == [x] + FirstSeen(DropKey([], key(x), key), key);
      assert !HasKey(xs, key(x), key);
    } else {
      var h := xs[0];
      var t := xs[1..];
      assert xs == [h] + t;
      assert (xs + [x])[1..] == t + [x];
      DropKeySnoc(t, x, key(h), key);
      var rest := DropKey(t, key(h), key);
      HasKeyCons(h, t, key(x), key);
      assert FirstSeen(xs, key) == [h] + FirstSeen(rest, key);
      if key(x) == key(h) {
        FirstSeenSnocSameKey(xs, x, key);
      } else {
        FirstSeenSnoc(rest, x, key);
        HasKeyDropKey(t, key(h), key(x), key);
        calc {
          FirstSeen(xs + [x], key);
          [h] + FirstSeen(DropKey(t + [x], key(h), key), key);
          [h] + FirstSeen(rest + [x], key);
          [h] + (FirstSeen(rest, key) + (if HasKey(rest, key(x), key) then [] else [x]));
          ([h] + FirstSeen(rest, key)) + (if HasKey(xs, key(x), key) then [] else [x]);
        }
      }
    }
  }

  lemma FirstSeenSnocSameKey(xs: seq<string>, x: string, key: string -> string)
    requires xs != [] && key(x) == key(xs[0])
    ensures FirstSeen(xs + [x], key) == FirstSeen(xs, key)
    ensures HasKey(xs, key(x), key)
  {
    var h := xs[0];
    var t := xs[1..];
    assert (xs + [x])[1..] == t + [x];
    DropKeySnoc(t, x, key(h), key);
    assert DropKey(t + [x], key(h), key) == DropKey(t, key(h), key);
    assert h in xs;
  }

  /** The seen-set loop computes exactly the reference reading: first spelling of every
      key, in first-seen order. */
  lemma {:induction false} DedupByIsFirstSeen(xs: seq<string>, key: string -> string)
    ensures DedupBy(xs, key) == FirstSeen(xs, key)
    decreases |xs|
  {
    if xs != [] {
      var init := xs[..|xs| - 1];
      var x := xs[|xs| - 1];
      assert xs == init + [x];
      DedupByIsFirstSeen(init, key);
      FirstSeenSnoc(init, x, key);
      FirstSeenKeys(init, key(x), key);
    }
  }

  /** No two kept items share a key, and every kept item comes from the input. */
  lemma {:induction false} DedupByUnique(xs: seq<string>, key: string -> string)
    ensures KeyUnique(DedupBy(xs, key), key)
    ensures forall y :: y in DedupBy(xs, key) ==> y in xs
    decreases |xs|
  {
    if xs != [] {
      DedupByUnique(xs[..|xs| - 1], key);
    }
  }

  /** Every key of the input is represented. */
  lemma {:induction false} DedupByCovers(xs: seq<string>, key: string -> string)
    ensures forall x :: x in xs ==> HasKey(DedupBy(xs, key), key(x), key)
    decreases |xs|
  {
    if xs != [] {
      var init := xs[..|xs| - 1];
      DedupByCovers(init, key);
      forall x | x in xs ensures HasKey(DedupBy(xs, key), key(x), key) {
        if x != xs[|xs| - 1] {
          assert x in init;
        }
      }
    }
  }

  /** One more input item is kept, at the end, exactly when its key is new to the input. */
  lemma DedupBySnoc(xs: seq<string>, x: string, key: string -> string)
    ensures DedupBy(xs + [x], key) == DedupBy(xs, key) + (if HasKey(xs, key(x), key) then [] else [x])
  {
    assert (xs + [x])[..|xs|] == xs;
    DedupByUnique(xs, key);
    DedupByCovers(xs, key);
    if HasKey(xs, key(x), key) {
      var y :| y in xs && key(y) == key(x);
    }
  }

  /** An input whose keys are already distinct passes through unchanged. */
  lemma {:induction false} DedupByOfUnique(xs: seq<string>, key: string -> string)
    requires KeyUnique(xs, key)
    ensures DedupBy(xs, key) == xs
    decreases |xs|
  {
    if xs != [] {
      var init := xs[..|xs| - 1];
      DedupByOfUnique(init, key);
      DedupByUnique(init, key);
    }
  }

  /** De-duplicating twice changes nothing more. */
  lemma DedupByIdempotent(xs: seq<string>, key: string -> string)
    ensures DedupBy(DedupBy(xs, key), key) == DedupBy(xs, key)
  {
    DedupByUnique(xs, key);
    DedupByOfUnique(DedupBy(xs, key), key);
  }

  /** The result for a prefix is a prefix of the result. */
  lemma {:induction false} DedupByPrefix(a: seq<string>, b: seq<string>, key: string -> string)
    ensures DedupBy(a, key) <= DedupBy(a + b, key)
    decreases |b|
  {
    if b == [] {
      assert a + b == a;
    } else {
      var init := b[..|b| - 1];
      DedupByPrefix(a, init, key);
      assert (a + b)[..|a + b| - 1] == a + init;
    }
  }

  // ---------------------------------------------------------------------------
  // _uniq: strip, drop blanks and exact duplicates, keep first-seen order
  // ---------------------------------------------------------------------------

  /** [v.strip() for v in values if v.strip()] */
  function NonBlankTrimmed(values: seq<string>): (r: seq<string>)
    decreases |values|
  {
    if values == [] then []
    else
      var init := NonBlankTrimmed(values[..|values| - 1]);
      var t := Trim(values[|values| - 1]);
      if t == "" then init else init + [t]
  }

  predicate TrimsTo(values: seq<string>, t: string) {
    exists v :: v in values && Trim(v) == t
  }

  lemma {:induction false} NonBlankTrimmedMembers(values: seq<string>)
    ensures forall t :: t in NonBlankTrimmed(values) <==> t != "" && TrimsTo(values, t)
    decreases |values|
  {
    if values != [] {
      var init := values[..|values| - 1];
      var last := values[|values| - 1];
      assert values == init + [last];
      NonBlankTrimmedMembers(init);
      forall t ensures TrimsTo(values, t) <==> TrimsTo(init, t) || Trim(last) == t {
        if TrimsTo(values, t) {
          var v :| v in values && Trim(v) == t;
          if v != last {
            assert v in init;
          }
        }
        if TrimsTo(init, t) {
          var v :| v in init && Trim(v) == t;
          assert v in values;
        }
      }
    }
  }

  function Uniqued(values: seq<string>): seq<string> {
    DedupBy(NonBlankTrimmed(values), Same)
  }

  /** _uniq: the result holds each stripped non-blank input once, nothing else, no
      duplicates, and is already stripped. */
  lemma UniquedSpec(values: seq<string>)
    ensures forall t :: t in Uniqued(values) <==> t != "" && TrimsTo(values, t)
    ensures forall i, j :: 0 <= i < j < |Uniqued(values)| ==> Uniqued(values)[i] != Uniqued(values)[j]
    ensures forall t :: t in Uniqued(values) ==> Trim(t) == t
  {
    var xs := NonBlankTrimmed(values);
    NonBlankTrimmedMembers(values);
    DedupByUnique(xs, Same);
    DedupByCovers(xs, Same);
    forall t | t in Uniqued(values) ensures Trim(t) == t {
      var v :| v in values && Trim(v) == t;
      TrimIdempotent(v);
    }
    forall t | t in xs ensures t in Uniqued(values) {
      var y :| y in Uniqued(values) && Same(y) == Same(t);
    }
  }

  /** _uniq of its own output is the same list. */
  lemma {:induction false} UniquedIdempotent(values: seq<string>)
    ensures Uniqued(Uniqued(values)) == Uniqued(values)
  {
    var u := Uniqued(values);
    UniquedSpec(values);
    assert forall t :: t in u ==> t != "" && Trim(t) == t;
    NonBlankTrimmedOfClean(u);
    DedupByIdempotent(NonBlankTrimmed(values), Same);
  }

  lemma {:induction false} NonBlankTrimmedOfClean(xs: seq<string>)
    requires forall t :: t in xs ==> t != "" && Trim(t) == t
    ensures NonBlankTrimmed(xs) == xs
    decreases |xs|
  {
    if xs != [] {
      var init := xs[..|xs| - 1];
      assert xs == init + [xs[|xs| - 1]];
      assert xs[|xs| - 1] in xs;
      forall t | t in init ensures t != "" && Trim(t) == t {
        assert t in xs;
      }
      NonBlankTrimmedOfClean(init);
    }
  }

  lemma UniqStep(values: seq<string>, i: nat)
    requires i < |values|
    ensures var t := Trim(values[i]);
            var before := DedupBy(NonBlankTrimmed(values[..i]), Same);
            DedupBy(NonBlankTrimmed(values[..i + 1]), Same)
            == if t == "" || t in before then before else before + [t]
  {
    var t := Trim(values[i]);
    assert values[..i + 1][..i] == values[..i];
    var before := DedupBy(NonBlankTrimmed(values[..i]), Same);
    if t != "" {
      var xs := NonBlankTrimmed(values[..i + 1]);
      assert xs[..|xs| - 1] == NonBlankTrimmed(values[..i]);
      if HasKey(before, Same(t), Same) {
        var y :| y in before && Same(y) == Same(t);
      }
      if t in before {
        assert HasKey(before, Same(t), Same);
      }
    }
  }

  /** _uniq as the source writes it: a seen set and an output list. */
  method Uniq(values: seq<string>) returns (out: seq<string>)
    ensures out == Uniqued(values)
  {
    var seen: set<string> := {};
    out := [];
    var i := 0;
    while i < |values|
      invariant 0 <= i <= |values|
      invariant out == DedupBy(NonBlankTrimmed(values[..i]), Same)
      invariant forall t :: t in seen <==> t in out
    {
      var text := Trim(values[i]);
      UniqStep(values, i);
      if text != "" && text !in seen {
        seen := seen + {text};
        out := out + [text];
      }
      i := i + 1;
    }
    assert values[..i] == values;
  }

  // ---------------------------------------------------------------------------
  // sorted() over a list of str
  // ---------------------------------------------------------------------------

  predicate SortedLex(s: seq<string>) {
    forall i, j :: 0 <= i < j < |s| ==> LexLe(s[i], s[j])
  }

  function Insert(x: string, s: seq<string>): (r: seq<string>)
    ensures multiset(r) == multiset(s) + multiset{x}
  {
    if s == [] then [x]
    else if LexLe(x, s[0]) then [x] + s
    else
      assert s == [s[0]] + s[1..];
      [s[0]] + Insert(x, s[1..])
  }

  function SortStrings(xs: seq<string>): (r: seq<string>)
    ensures multiset(r) == multiset(xs)
  {
    if xs == [] then []
    else
      assert xs == [xs[0]] + xs[1..];
      Insert(xs[0], SortStrings(xs[1..]))
  }

  lemma {:induction false} InsertSorted(x: string, s: seq<string>)
    requires SortedLex(s)
    ensures SortedLex(Insert(x, s))
    decreases |s|
  {
    if s == [] {
    } else if LexLe(x, s[0]) {
      var r := [x] + s;
      forall i, j | 0 <= i < j < |r| ensures LexLe(r[i], r[j]) {
        if i == 0 && j > 1 {
          assert LexLe(s[0], s[j - 1]);
          LexLeTransitive(x, s[0], r[j]);
        }
      }
    } else {
      LexLeTotal(x, s[0]);
      InsertSorted(x, s[1..]);
      var tail := Insert(x, s[1..]);
      var r := [s[0]] + tail;
      forall i, j | 0 <= i < j < |r| ensures LexLe(r[i], r[j]) {
        if i == 0 {
          assert r[j] in multiset(tail);
          assert r[j] in multiset(s[1..]) + multiset{x};
          if r[j] != x {
            assert r[j] in s[1..];
          }
        }
      }
    }
  }

  /** sorted(): an ascending rearrangement of the input. */
  lemma {:induction false} SortStringsSorted(xs: seq<string>)
    ensures SortedLex(SortStrings(xs)) && multiset(SortStrings(xs)) == multiset(xs)
    decreases |xs|
  {
    if xs != [] {
      SortStringsSorted(xs[1..]);
      InsertSorted(xs[0], SortStrings(xs[1..]));
    }
  }

  // ---------------------------------------------------------------------------
  // The `if p(x): out.append(f(x))` loop
  // ---------------------------------------------------------------------------

  /** f of every element that satisfies p, in order. */
  function Collect<A, B>(xs: seq<A>, p: A -> bool, f: A -> B): (r: seq<B>)
    ensures |r| <= |xs|
    decreases |xs|
  {
    if xs == [] then []
    else
      var init := Collect(xs[..|xs| - 1], p, f);
      if p(xs[|xs| - 1]) then init + [f(xs[|xs| - 1])] else init
  }

  lemma CollectStep<A, B>(xs: seq<A>, p: A -> bool, f: A -> B, i: nat)
    requires i < |xs|
    ensures Collect(xs[..i + 1], p, f) ==
              if p(xs[i]) then Collect(xs[..i], p, f) + [f(xs[i])] else Collect(xs[..i], p, f)
  {
    assert xs[..i + 1][..i] == xs[..i];
  }

  /** The collected values are exactly f of the elements that satisfy p. */
  lemma {:induction false} CollectMembers<A, B>(xs: seq<A>, p: A -> bool, f: A -> B)
    ensures forall y :: y in Collect(xs, p, f) ==> exists x :: x in xs && p(x) && y == f(x)
    ensures forall x :: x in xs && p(x) ==> f(x) in Collect(xs, p, f)
    decreases |xs|
  {
    if xs != [] {
      var n := |xs| - 1;
      var init := xs[..n];
      CollectMembers(init, p, f);
      assert xs == init + [xs[n]];
      forall y | y in Collect(xs, p, f) ensures exists x :: x in xs && p(x) && y == f(x) {
        if y in Collect(init, p, f) {
          var x :| x in init && p(x) && y == f(x);
          assert x in xs;
        } else {
          assert xs[n] in xs;
        }
      }
      forall x | x in xs && p(x) ensures f(x) in Collect(xs, p, f) {
        if x in init {
          assert f(x) in Collect(init, p, f);
        } else {
          assert x == xs[n];
        }
      }
    }
  }
}
