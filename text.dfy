/** ASCII models of the Python string operations the ingestion code relies on:
    str.lower / str.upper, str.strip, the `in` substring test, str.startswith,
    str.split with an explicit separator, str.join and the lexicographic order
    of str comparisons. */
module Text {

  /** Characters removed by str.strip() (the ASCII part of Python's whitespace set). */
  predicate IsSpace(c: char) {
    (9 <= c as int <= 13) || (28 <= c as int <= 32)
  }

  predicate IsDigit(c: char) { '0' <= c <= '9' }

  predicate AllDigits(s: string) { forall i :: 0 <= i < |s| ==> IsDigit(s[i]) }

  predicate AllSpace(s: string) { forall i :: 0 <= i < |s| ==> IsSpace(s[i]) }

  function LowerChar(c: char): char {
    if 'A' <= c <= 'Z' then (c as int + 32) as char else c
  }

  function UpperChar(c: char): char {
    if 'a' <= c <= 'z' then (c as int - 32) as char else c
  }

  function Lower(s: string): (r: string)
    ensures |r| == |s|
    ensures forall i :: 0 <= i < |s| ==> r[i] == LowerChar(s[i])
  {
    seq(|s|, i requires 0 <= i < |s| => LowerChar(s[i]))
  }

  function Upper(s: string): (r: string)
    ensures |r| == |s|
    ensures forall i :: 0 <= i < |s| ==> r[i] == UpperChar(s[i])
  {
    seq(|s|, i requires 0 <= i < |s| => UpperChar(s[i]))
  }

  /** Text without capitals is its own lower-case form. */
  lemma LowerOfLowercase(s: string)
    requires forall i :: 0 <= i < |s| ==> !('A' <= s[i] <= 'Z')
    ensures Lower(s) == s
  {
  }

  lemma LowerIdempotent(s: string)
    ensures Lower(Lower(s)) == Lower(s)
  {
  }

  lemma LowerAppend(a: string, b: string)
    ensures Lower(a + b) == Lower(a) + Lower(b)
  {
  }

  /** str.replace(" ", "_") */
  function SpacesToUnderscores(s: string): (r: string)
    ensures |r| == |s|
    ensures forall i :: 0 <= i < |s| ==> r[i] == (if s[i] == ' ' then '_' else s[i])
  {
    seq(|s|, i requires 0 <= i < |s| => if s[i] == ' ' then '_' else s[i])
  }

  // ---------------------------------------------------------------------------
  // str.strip()
  // ---------------------------------------------------------------------------

  /** The index of the first character at or after `i` that is not white space. */
  function SkipSpaces(s: string, i: nat): (j: nat)
    requires i <= |s|
    ensures i <= j <= |s|
    ensures forall k :: i <= k < j ==> IsSpace(s[k])
    ensures j == |s| || !IsSpace(s[j])
    decreases |s| - i
  {
    if i < |s| && IsSpace(s[i]) then SkipSpaces(s, i + 1) else i
  }

  /** One past the last character before `j` that is not white space, never below `lo`. */
  function BackSpaces(s: string, lo: nat, j: nat): (m: nat)
    requires lo <= j <= |s|
    ensures lo <= m <= j
    ensures forall k :: m <= k < j ==> IsSpace(s[k])
    ensures m == lo || !IsSpace(s[m - 1])
    decreases j
  {
    if j > lo && IsSpace(s[j - 1]) then BackSpaces(s, lo, j - 1) else j
  }

  /** str.strip(): the middle part of `s` with no white space at either end. */
  function Trim(s: string): (r: string)
    ensures |r| <= |s|
    ensures r == [] || (!IsSpace(r[0]) && !IsSpace(r[|r| - 1]))
  {
    var lo := SkipSpaces(s, 0);
    s[lo..BackSpaces(s, lo, |s|)]
  }

  /** What strip removes is white space: the result sits at some offset of `s` with only
      white space before and after it. */
  lemma TrimSpec(s: string)
    ensures var r := Trim(s);
            exists i :: 0 <= i <= |s| - |r| && r == s[i..i + |r|] && AllSpace(s[..i]) && AllSpace(s[i + |r|..])
  {
    var lo := SkipSpaces(s, 0);
    var hi := BackSpaces(s, lo, |s|);
    var r := Trim(s);
    assert r == s[lo..hi];
    assert AllSpace(s[..lo]);
    assert AllSpace(s[hi..]);
    assert 0 <= lo <= |s| - |r| && r == s[lo..lo + |r|] && AllSpace(s[..lo]) && AllSpace(s[lo + |r|..]);
  }

  /** An all-blank string is exactly one that strips to "". */
  lemma TrimEmptyIff(s: string)
    ensures Trim(s) == "" <==> AllSpace(s)
  {
    var lo := SkipSpaces(s, 0);
    var hi := BackSpaces(s, lo, |s|);
    if Trim(s) == "" {
      assert lo == hi;
    } else {
      assert lo < |s| && !IsSpace(s[lo]);
    }
  }

  /** A string with no white space at either end strips to itself. */
  lemma TrimOfTrimmed(s: string)
    requires s == [] || (!IsSpace(s[0]) && !IsSpace(s[|s| - 1]))
    ensures Trim(s) == s
  {
    var lo := SkipSpaces(s, 0);
    assert lo == 0;
    assert BackSpaces(s, 0, |s|) == |s|;
    assert s[0..|s|] == s;
  }

  /** Stripping removes exactly the white space around a middle with non-space ends. */
  lemma TrimPadded(pre: string, t: string, post: string)
    requires AllSpace(pre) && AllSpace(post)
    requires t != [] && !IsSpace(t[0]) && !IsSpace(t[|t| - 1])
    ensures Trim(pre + t + post) == t
  {
    var s := pre + t + post;
    assert s[|pre|] == t[0];
    assert s[|pre| + |t| - 1] == t[|t| - 1];
    var lo := SkipSpaces(s, 0);
    assert lo == |pre|;
    var hi := BackSpaces(s, lo, |s|);
    assert hi == |pre| + |t|;
    assert s[lo..hi] == t;
  }

  /** Stripping twice strips nothing more. */
  lemma TrimIdempotent(s: string)
    ensures Trim(Trim(s)) == Trim(s)
  {
    TrimOfTrimmed(Trim(s));
  }

  /** Text starting with a non-space character is not blank. */
  lemma NotBlankIfFirstNotSpace(s: string)
    requires |s| > 0 && !IsSpace(s[0])
    ensures !IsBlank(s)
  {
    TrimEmptyIff(s);
  }

  /** Python truthiness of `s.strip()`. */
  predicate IsBlank(s: string) { Trim(s) == "" }

  // ---------------------------------------------------------------------------
  // Substrings
  // ---------------------------------------------------------------------------

  predicate StartsWith(s: string, p: string) { |p| <= |s| && s[..|p|] == p }

  predicate OccursAt(s: string, sub: string, i: int) {
    0 <= i && i + |sub| <= |s| && s[i..i + |sub|] == sub
  }

  /** Python's `sub in s`. */
  predicate Contains(s: string, sub: string)
    decreases |s|
  {
    StartsWith(s, sub) || (|s| > 0 && Contains(s[1..], sub))
  }

  lemma {:induction false} ContainsIff(s: string, sub: string)
    ensures Contains(s, sub) <==> exists i :: OccursAt(s, sub, i)
  {
    if StartsWith(s, sub) {
      assert OccursAt(s, sub, 0);
    } else if |s| > 0 {
      ContainsIff(s[1..], sub);
      if Contains(s[1..], sub) {
        var i :| OccursAt(s[1..], sub, i);
        assert s[1..][i..i + |sub|] == s[i + 1..i + 1 + |sub|];
        assert OccursAt(s, sub, i + 1);
      }
      if exists i :: OccursAt(s, sub, i) {
        var i :| OccursAt(s, sub, i);
        assert i != 0;
        assert s[1..][i - 1..i - 1 + |sub|] == s[i..i + |sub|];
        assert OccursAt(s[1..], sub, i - 1);
      }
    }
  }

  lemma ContainsAt(s: string, sub: string, i: int)
    requires OccursAt(s, sub, i)
    ensures Contains(s, sub)
  {
    ContainsIff(s, sub);
  }

  /** A substring of a part is a substring of the whole. */
  lemma ContainsInConcat(a: string, b: string, sub: string)
    ensures Contains(a, sub) ==> Contains(a + b, sub)
    ensures Contains(b, sub) ==> Contains(a + b, sub)
  {
    ContainsIff(a, sub);
    ContainsIff(b, sub);
    ContainsIff(a + b, sub);
    if Contains(a, sub) {
      var i :| OccursAt(a, sub, i);
      assert (a + b)[i..i + |sub|] == a[i..i + |sub|];
      assert OccursAt(a + b, sub, i);
    }
    if Contains(b, sub) {
      var i :| OccursAt(b, sub, i);
      assert (a + b)[|a| + i..|a| + i + |sub|] == b[i..i + |sub|];
      assert OccursAt(a + b, sub, |a| + i);
    }
  }

  /** An occurrence of a pattern without the separator lies wholly on one side of it. */
  lemma SeparatorSplitsHit(a: string, c: char, b: string, sub: string)
    requires c !in sub && Contains(a + [c] + b, sub)
    ensures Contains(a, sub) || Contains(b, sub)
  {
    var w := a + [c] + b;
    ContainsIff(w, sub);
    ContainsIff(a, sub);
    ContainsIff(b, sub);
    var i :| OccursAt(w, sub, i);
    if i + |sub| <= |a| {
      assert w[i..i + |sub|] == a[i..i + |sub|];
      assert OccursAt(a, sub, i);
    } else if i > |a| {
      assert w[|a| + 1..] == b;
      assert w[i..i + |sub|] == b[i - |a| - 1..i - |a| - 1 + |sub|];
      assert OccursAt(b, sub, i - |a| - 1);
    } else {
      StraddleHitsSeparator(a, c, b, sub, i);
      assert false;
    }
  }

  /** A pattern without the separating character cannot straddle it: an occurrence in
      `a + [c] + b` lies inside `a` or inside `b`. */
  lemma {:induction false} ContainsAcrossSeparator(a: string, c: char, b: string, sub: string)
    requires c !in sub
    ensures Contains(a + [c] + b, sub) <==> Contains(a, sub) || Contains(b, sub)
  {
    if Contains(a + [c] + b, sub) {
      SeparatorSplitsHit(a, c, b, sub);
    }
    ContainsInConcat(a, [c] + b, sub);
    ContainsInConcat(a + [c], b, sub);
    assert a + [c] + b == a + ([c] + b);
  }

  lemma StraddleHitsSeparator(a: string, c: char, b: string, sub: string, i: int)
    requires OccursAt(a + [c] + b, sub, i) && i <= |a| < i + |sub|
    ensures c in sub
  {
    assert sub[|a| - i] == (a + [c] + b)[|a|];
  }

  /** A substring of a substring is a substring. */
  lemma ContainsTransitive(a: string, b: string, c: string)
    requires Contains(a, b) && Contains(b, c)
    ensures Contains(a, c)
  {
    ContainsIff(a, b);
    ContainsIff(b, c);
    var i :| OccursAt(a, b, i);
    var j :| OccursAt(b, c, j);
    assert b == a[i..i + |b|];
    forall k | 0 <= k < |c| ensures a[i + j + k] == c[k] {
      assert c[k] == b[j + k];
    }
    assert a[i + j..i + j + |c|] == c;
    ContainsAt(a, c, i + j);
  }

  /** Python's any(term in s for term in terms). */
  predicate AnyIn(s: string, terms: seq<string>)
  {
    exists j :: 0 <= j < |terms| && Contains(s, terms[j])
  }

  // ---------------------------------------------------------------------------
  // str.split(sep) and sep.join(items)
  // ---------------------------------------------------------------------------

  /** Index of the first occurrence of `sub` at or after `from`. */
  function FindFrom(s: string, sub: string, from: nat): (r: int)
    requires from <= |s|
    ensures r == -1 || (from <= r && OccursAt(s, sub, r))
    ensures r == -1 ==> forall k :: from <= k ==> !OccursAt(s, sub, k)
    ensures r != -1 ==> forall k :: from <= k < r ==> !OccursAt(s, sub, k)
    decreases |s| - from
  {
    if OccursAt(s, sub, from) then from
    else if from + |sub| >= |s| then -1
    else FindFrom(s, sub, from + 1)
  }

  /** Python's s.split(sep) for a non-empty separator: always at least one piece. */
  function Split(s: string, sep: string): (r: seq<string>)
    requires |sep| > 0
    ensures |r| >= 1
    decreases |s|
  {
    var i := FindFrom(s, sep, 0);
    if i < 0 then [s] else [s[..i]] + Split(s[i + |sep|..], sep)
  }

  /** Without the separator in it, a string splits into itself. */
  lemma SplitNoSeparator(s: string, sep: string)
    requires |sep| > 0 && !Contains(s, sep)
    ensures Split(s, sep) == [s]
  {
    ContainsIff(s, sep);
  }

  /** The pieces of a split are separator-free. */
  lemma {:induction false} SplitPiecesFree(s: string, sep: string)
    requires |sep| > 0
    ensures forall k :: 0 <= k < |Split(s, sep)| ==> !Contains(Split(s, sep)[k], sep)
    decreases |s|
  {
    var i := FindFrom(s, sep, 0);
    if i < 0 {
      ContainsIff(s, sep);
    } else {
      var head := s[..i];
      ContainsIff(head, sep);
      forall k | OccursAt(head, sep, k) ensures false {
        assert s[k..k + |sep|] == head[k..k + |sep|];
        assert OccursAt(s, sep, k);
      }
      SplitPiecesFree(s[i + |sep|..], sep);
    }
  }

  /** Joining the pieces of a split with the same separator gives back the text. */
  lemma {:induction false} SplitJoin(s: string, sep: string)
    requires |sep| > 0
    ensures Join(Split(s, sep), sep) == s
    decreases |s|
  {
    var head, found, rest := SplitFirst(s, sep);
    if found {
      SplitJoin(rest, sep);
      JoinCons(head, Split(rest, sep), sep);
    }
  }

  /** The first piece of a split, and the text after the first separator if there is one. */
  lemma SplitFirst(s: string, sep: string) returns (head: string, found: bool, rest: string)
    requires |sep| > 0
    ensures !found ==> Split(s, sep) == [s] && head == s
    ensures found ==> |rest| < |s| && s == head + sep + rest && Split(s, sep) == [head] + Split(rest, sep)
  {
    var i := FindFrom(s, sep, 0);
    if i < 0 {
      head, found, rest := s, false, "";
    } else {
      head, found, rest := s[..i], true, s[i + |sep|..];
      assert s[i..i + |sep|] == sep;
      assert s == s[..i] + s[i..i + |sep|] + s[i + |sep|..];
    }
  }

  /** One more item in front of a non-empty list adds it and a separator. */
  lemma JoinCons(h: string, t: seq<string>, sep: string)
    requires t != []
    ensures Join([h] + t, sep) == h + sep + Join(t, sep)
  {
    assert ([h] + t)[1..] == t;
  }

  function Join(items: seq<string>, sep: string): (r: string)
    decreases |items|
  {
    if |items| == 0 then ""
    else if |items| == 1 then items[0]
    else items[0] + sep + Join(items[1..], sep)
  }

  /** Joining non-empty items gives "" exactly when there are none. */
  lemma {:induction false} JoinEmptyIff(items: seq<string>, sep: string)
    requires forall k :: 0 <= k < |items| ==> items[k] != ""
    ensures Join(items, sep) == "" <==> items == []
  {
    if |items| >= 2 {
      assert |Join(items, sep)| >= |items[0]| > 0;
    }
  }

  /** The joined text starts with the first item. */
  lemma JoinStartsWithFirst(items: seq<string>, sep: string)
    requires |items| > 0
    ensures StartsWith(Join(items, sep), items[0])
  {
    if |items| >= 2 {
      assert Join(items, sep) == items[0] + (sep + Join(items[1..], sep));
    }
  }

  /** A join whose first item is not blank is not blank. */
  lemma JoinNotBlank(items: seq<string>, sep: string)
    requires |items| > 0 && !IsBlank(items[0])
    ensures !IsBlank(Join(items, sep))
  {
    var j := Join(items, sep);
    JoinStartsWithFirst(items, sep);
    TrimEmptyIff(items[0]);
    TrimEmptyIff(j);
    assert forall i :: 0 <= i < |items[0]| ==> items[0][i] == j[i];
  }

  /** Every item occurs in the joined text. */
  lemma {:induction false} JoinContainsItems(items: seq<string>, sep: string, k: nat)
    requires k < |items|
    ensures Contains(Join(items, sep), items[k])
    decreases |items|
  {
    if |items| == 1 {
      assert OccursAt(items[0], items[0], 0);
      ContainsAt(items[0], items[0], 0);
    } else if k == 0 {
      assert OccursAt(items[0] + sep + Join(items[1..], sep), items[0], 0);
      ContainsAt(items[0] + sep + Join(items[1..], sep), items[0], 0);
    } else {
      JoinContainsItems(items[1..], sep, k - 1);
      ContainsInConcat(items[0] + sep, Join(items[1..], sep), items[k]);
    }
  }

  /** Joining stripped, non-empty items gives a stripped text: it begins with the first
      item and ends with the last. */
  lemma {:induction false} JoinOfStripped(items: seq<string>, sep: string)
    requires forall k :: 0 <= k < |items| ==> items[k] != [] && Trim(items[k]) == items[k]
    ensures Trim(Join(items, sep)) == Join(items, sep)
    ensures items != [] ==> Join(items, sep) != []
    decreases |items|
  {
    var j := Join(items, sep);
    if |items| == 1 {
    } else if |items| >= 2 {
      JoinOfStripped(items[1..], sep);
      var rest := Join(items[1..], sep);
      assert j == items[0] + sep + rest;
      assert j[0] == items[0][0] && j[|j| - 1] == rest[|rest| - 1];
      TrimOfTrimmed(j);
    }
  }

  // ---------------------------------------------------------------------------
  // Python's ordering of str values (code point by code point)
  // ---------------------------------------------------------------------------

  predicate LexLe(a: string, b: string)
    decreases |a|
  {
    a == [] || (b != [] && (a[0] < b[0] || (a[0] == b[0] && LexLe(a[1..], b[1..]))))
  }

  predicate LexLt(a: string, b: string) { LexLe(a, b) && a != b }

  lemma {:induction false} LexLeTotal(a: string, b: string)
    ensures LexLe(a, b) || LexLe(b, a)
    decreases |a|
  {
    if a != [] && b != [] && a[0] == b[0] {
      LexLeTotal(a[1..], b[1..]);
    }
  }

  lemma {:induction false} LexLeAntisymmetric(a: string, b: string)
    requires LexLe(a, b) && LexLe(b, a)
    ensures a == b
    decreases |a|
  {
    if a != [] && b != [] {
      LexLeAntisymmetric(a[1..], b[1..]);
      assert a == [a[0]] + a[1..];
      assert b == [b[0]] + b[1..];
    }
  }

  lemma {:induction false} LexLeTransitive(a: string, b: string, c: string)
    requires LexLe(a, b) && LexLe(b, c)
    ensures LexLe(a, c)
    decreases |a|
  {
    if a != [] && b != [] && c != [] && a[0] == b[0] && b[0] == c[0] {
      LexLeTransitive(a[1..], b[1..], c[1..]);
    }
  }

  lemma LexLeReflexive(a: string)
    ensures LexLe(a, a)
  {
    if a != [] {
      LexLeReflexive(a[1..]);
    }
  }
}
