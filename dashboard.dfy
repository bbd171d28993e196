/** The pure parts of the dashboard: the list splitters, the year of a date, the boolean
    search box (OR of AND groups over the row text), the has_results backfill and the
    fallback pagination. */
module Dashboard {
  import opened Text
  import opened Records
  import IngestMerge

  // ---------------------------------------------------------------------------
  // split_tags and split_csv_values
  // ---------------------------------------------------------------------------

  /** [p.strip() for p in pieces if p.strip() and p.strip() not in dropped] */
  function Stripped(pieces: seq<string>, dropped: set<string>): seq<string>
    decreases |pieces|
  {
    if pieces == [] then []
    else
      var t := Trim(pieces[0]);
      (if t != "" && t !in dropped then [t] else []) + Stripped(pieces[1..], dropped)
  }

  /** split_tags; a missing value is passed as "". */
  function SplitTags(tags: string): seq<string> {
    if tags == "" then [] else Stripped(Split(tags, ","), {})
  }

  /** split_csv_values; a missing value is passed as "". */
  function SplitCsvValues(value: string): seq<string> {
    if value == "" then [] else Stripped(Split(value, ","), {"NA"})
  }

  /** The items are stripped, non-blank, never dropped, and each one is a stripped piece. */
  lemma {:induction false} StrippedMembers(pieces: seq<string>, dropped: set<string>)
    ensures forall y :: y in Stripped(pieces, dropped) <==>
              y != "" && y !in dropped && exists p :: p in pieces && Trim(p) == y
    ensures forall y :: y in Stripped(pieces, dropped) ==> Trim(y) == y
    decreases |pieces|
  {
    if pieces != [] {
      StrippedMembers(pieces[1..], dropped);
      TrimIdempotent(pieces[0]);
      forall y | y != "" && y !in dropped && (exists p :: p in pieces && Trim(p) == y)
        ensures y in Stripped(pieces, dropped)
      {
        var p :| p in pieces && Trim(p) == y;
        if p != pieces[0] {
          assert p in pieces[1..];
        }
      }
      forall y | y in Stripped(pieces, dropped)
        ensures exists p :: p in pieces && Trim(p) == y
      {
        if y !in Stripped(pieces[1..], dropped) {
          assert Trim(pieces[0]) == y;
        } else {
          var p :| p in pieces[1..] && Trim(p) == y;
          assert p in pieces;
        }
      }
    }
  }

  /** Splitting on a character that no item holds gives the items back. */
  lemma {:induction false} SplitJoin(items: seq<string>, c: char)
    requires items != []
    requires forall k :: 0 <= k < |items| ==> c !in items[k]
    ensures Split(Join(items, [c]), [c]) == items
    decreases |items|
  {
    var s := Join(items, [c]);
    var head := items[0];
    forall k | 0 <= k < |head| ensures !OccursAt(s, [c], k) {
      assert s[k] == head[k];
    }
    if |items| == 1 {
      SplitNoSeparatorAt(s, c);
    } else {
      var rest := Join(items[1..], [c]);
      assert s == head + [c] + rest;
      assert OccursAt(s, [c], |head|);
      FirstOccurrence(s, [c], |head|);
      assert s[|head| + 1..] == rest;
      assert s[..|head|] == head;
      SplitJoin(items[1..], c);
    }
  }

  /** FindFrom from 0 finds the first occurrence. */
  lemma FirstOccurrence(s: string, sub: string, i: nat)
    requires OccursAt(s, sub, i) && forall k :: 0 <= k < i ==> !OccursAt(s, sub, k)
    ensures FindFrom(s, sub, 0) == i
  {
  }

  /** A string without the character splits into itself. */
  lemma SplitNoSeparatorAt(s: string, c: char)
    requires forall k :: 0 <= k < |s| ==> !OccursAt(s, [c], k)
    ensures Split(s, [c]) == [s]
  {
  }

  /** No piece of a split holds the separator character. */
  lemma PiecesWithout(s: string, c: char)
    ensures forall k :: 0 <= k < |Split(s, [c])| ==> c !in Split(s, [c])[k]
  {
    SplitPiecesFree(s, [c]);
    forall k | 0 <= k < |Split(s, [c])| ensures c !in Split(s, [c])[k] {
      var piece := Split(s, [c])[k];
      if c in piece {
        var i :| 0 <= i < |piece| && piece[i] == c;
        assert OccursAt(piece, [c], i);
        ContainsAt(piece, [c], i);
      }
    }
  }

  /** The kept pieces of a non-empty split: stripped, non-blank, comma-free, not dropped, and
      exactly the stripped pieces that are not blank or dropped. */
  lemma StrippedSplitSpec(value: string, dropped: set<string>)
    ensures forall y :: y in Stripped(Split(value, ","), dropped) ==>
              y != "" && y !in dropped && Trim(y) == y && ',' !in y
    ensures forall y :: y in Stripped(Split(value, ","), dropped) <==>
              y != "" && y !in dropped && exists p :: p in Split(value, ",") && Trim(p) == y
  {
    var pieces := Split(value, ",");
    StrippedMembers(pieces, dropped);
    PiecesWithout(value, ',');
    forall y | y in Stripped(pieces, dropped) ensures ',' !in y {
      var p :| p in pieces && Trim(p) == y;
      TrimSpec(p);
    }
  }

  /** split_tags keeps the stripped non-blank comma-separated items and nothing else. */
  lemma SplitTagsSpec(tags: string)
    ensures forall y :: y in SplitTags(tags) ==> y != "" && Trim(y) == y && ',' !in y
    ensures forall y :: y in SplitTags(tags) <==>
              tags != "" && y != "" && exists p :: p in Split(tags, ",") && Trim(p) == y
  {
    StrippedSplitSpec(tags, {});
  }

  /** split_csv_values additionally drops "NA", and keeps nothing else. */
  lemma SplitCsvValuesSpec(value: string)
    ensures forall y :: y in SplitCsvValues(value) ==> y != "" && y != "NA" && Trim(y) == y && ',' !in y
    ensures forall y :: y in SplitCsvValues(value) <==>
              value != "" && y != "" && y != "NA" && exists p :: p in Split(value, ",") && Trim(p) == y
  {
    StrippedSplitSpec(value, {"NA"});
  }

  /** Stripped keeps every item that is already stripped, non-blank and not dropped. */
  lemma {:induction false} StrippedOfClean(items: seq<string>, dropped: set<string>)
    requires forall k :: 0 <= k < |items| ==> items[k] != "" && Trim(items[k]) == items[k] && items[k] !in dropped
    ensures Stripped(items, dropped) == items
    decreases |items|
  {
    if items != [] {
      StrippedOfClean(items[1..], dropped);
    }
  }

  /** Round trip: the tags a focus_tags cell was joined from come back from split_tags. */
  lemma SplitTagsOfJoin(tags: seq<string>)
    requires forall k :: 0 <= k < |tags| ==> tags[k] != "" && Trim(tags[k]) == tags[k] && ',' !in tags[k]
    ensures SplitTags(Join(tags, ",")) == tags
  {
    if tags != [] {
      SplitJoin(tags, ',');
      JoinOfStripped(tags, ",");
      StrippedOfClean(tags, {});
    }
  }

  /** Round trip: the values an intervention_types cell was joined from come back from
      split_csv_values, as long as none is "NA". */
  lemma SplitCsvValuesOfJoin(values: seq<string>)
    requires forall k :: 0 <= k < |values| ==>
               values[k] != "" && values[k] != "NA" && Trim(values[k]) == values[k] && ',' !in values[k]
    ensures SplitCsvValues(Join(values, ",")) == values
  {
    if values != [] {
      SplitJoin(values, ',');
      JoinOfStripped(values, ",");
      StrippedOfClean(values, {"NA"});
    }
  }

  /** The first comma of a text splits it there. */
  lemma SplitAtFirstComma(s: string, i: nat)
    requires i < |s| && s[i] == ',' && forall k :: 0 <= k < i ==> s[k] != ','
    ensures Split(s, ",") == [s[..i]] + Split(s[i + 1..], ",")
  {
    assert OccursAt(s, ",", i);
    forall k | 0 <= k < i ensures !OccursAt(s, ",", k) {
      assert s[k..k + 1][0] == s[k];
    }
    FirstOccurrence(s, ",", i);
  }

  /** A text without a comma splits into itself. */
  lemma SplitWithoutComma(s: string)
    requires forall k :: 0 <= k < |s| ==> s[k] != ','
    ensures Split(s, ",") == [s]
  {
    forall k | 0 <= k < |s| ensures !OccursAt(s, [','], k) {
      assert s[k..k + 1][0] == s[k];
    }
    SplitNoSeparatorAt(s, ',');
  }

  lemma SplitExample()
    ensures Split("DRUG, PROCEDURE, NA, ", ",") == ["DRUG", " PROCEDURE", " NA", " "]
  {
    SplitJoin(["DRUG", " PROCEDURE", " NA", " "], ',');
    JoinExample();
  }

  lemma JoinExample()
    ensures Join(["DRUG", " PROCEDURE", " NA", " "], ",") == "DRUG, PROCEDURE, NA, "
  {
    var pieces := ["DRUG", " PROCEDURE", " NA", " "];
    assert Join(pieces[3..], ",") == " ";
    assert Join(pieces[2..], ",") == " NA, ";
    assert Join(pieces[1..], ",") == " PROCEDURE, NA, ";
  }

  /** The documented example: blanks and "NA" are dropped, the rest stripped. */
  lemma SplitCsvValuesExample()
    ensures SplitCsvValues("DRUG, PROCEDURE, NA, ") == ["DRUG", "PROCEDURE"]
  {
    SplitExample();
    StrippedExample();
  }

  lemma StrippedExample()
    ensures Stripped(["DRUG", " PROCEDURE", " NA", " "], {"NA"}) == ["DRUG", "PROCEDURE"]
  {
    StrippedExampleTail();
    TrimOfTrimmed("DRUG");
    LeadingSpaceTrim("PROCEDURE");
    assert [' '] + "PROCEDURE" == " PROCEDURE";
    StrippedHead(" PROCEDURE", [" NA", " "], {"NA"});
    assert [" PROCEDURE"] + [" NA", " "] == [" PROCEDURE", " NA", " "];
    StrippedHead("DRUG", [" PROCEDURE", " NA", " "], {"NA"});
    assert ["DRUG"] + [" PROCEDURE", " NA", " "] == ["DRUG", " PROCEDURE", " NA", " "];
    assert ["DRUG"] + (["PROCEDURE"] + []) == ["DRUG", "PROCEDURE"];
  }

  lemma StrippedExampleTail()
    ensures Stripped([" NA", " "], {"NA"}) == []
  {
    LeadingSpaceTrim("NA");
    assert [' '] + "NA" == " NA";
    LeadingSpaceTrim("");
    assert [' '] + "" == " ";
    StrippedHead(" ", [], {"NA"});
    assert [" "] + [] == [" "];
    StrippedHead(" NA", [" "], {"NA"});
    assert [" NA"] + [" "] == [" NA", " "];
  }

  /** One piece in front: it is kept, stripped, unless it is blank or dropped. */
  lemma StrippedHead(p: string, rest: seq<string>, dropped: set<string>)
    ensures Stripped([p] + rest, dropped) ==
              (if Trim(p) != "" && Trim(p) !in dropped then [Trim(p)] else []) + Stripped(rest, dropped)
  {
    assert ([p] + rest)[1..] == rest;
  }

  /** One leading space is stripped from an otherwise stripped text. */
  lemma LeadingSpaceTrim(w: string)
    requires w == [] || (!IsSpace(w[0]) && !IsSpace(w[|w| - 1]))
    ensures Trim([' '] + w) == w
  {
    var s := [' '] + w;
    assert SkipSpaces(s, 1) == 1;
    assert SkipSpaces(s, 0) == 1;
    assert BackSpaces(s, 1, |s|) == |s|;
    assert s[1..|s|] == w;
  }

  // ---------------------------------------------------------------------------
  // _year_from_date
  // ---------------------------------------------------------------------------

  /** _year_from_date; a missing value is passed as "". */
  function YearFromDate(value: string): string {
    var v := Trim(value);
    if |v| >= 4 && AllDigits(v[..4]) then v[..4] else ""
  }

  /** The year is the first four characters of the stripped value exactly when they are all
      digits, and "" otherwise. */
  lemma YearFromDateSpec(value: string)
    ensures var y := YearFromDate(value);
            y == "" || (|y| == 4 && AllDigits(y) && StartsWith(Trim(value), y))
    ensures YearFromDate(value) != "" <==> |Trim(value)| >= 4 && AllDigits(Trim(value)[..4])
  {
  }

  /** Every date key the ingestion keeps (YYYY, YYYY-MM, YYYY-MM-DD) has a year. */
  lemma YearOfDateKey(v: Cell)
    requires IngestMerge.ParseDateKey(v) != ""
    ensures var key := IngestMerge.ParseDateKey(v);
            YearFromDate(key) == key[..4] && YearFromDate(key) != ""
  {
    var key := IngestMerge.ParseDateKey(v);
    assert IngestMerge.DateShape(key);
    assert !IsSpace(key[0]) && !IsSpace(key[|key| - 1]);
    TrimOfTrimmed(key);
    assert forall i :: 0 <= i < 4 ==> IsDigit(key[i]);
  }

  // ---------------------------------------------------------------------------
  // The has_results backfill in load_trials
  // ---------------------------------------------------------------------------

  /** pandas `astype(str)` of a database cell: a NULL becomes the text "None". */
  function CellText(c: Cell): string {
    if c.None? then "None" else c.value
  }

  /** After `astype(str)`, a blank has_results becomes "yes" when results_last_update is not
      blank, and any value still blank becomes "no". */
  function BackfillHasResults(hasResults: Cell, resultsLastUpdate: Cell): string {
    var h := CellText(hasResults);
    if IsBlank(h) && !IsBlank(CellText(resultsLastUpdate)) then "yes"
    else if IsBlank(h) then "no"
    else h
  }

  /** The backfill never leaves a blank and never touches a non-blank value; a NULL value
      shows as "None". A blank value becomes "yes" exactly when a results date is present,
      and a NULL date counts as present, because its text "None" is not blank. A second pass
      changes nothing. */
  lemma BackfillSpec(hasResults: Cell, resultsLastUpdate: Cell)
    ensures var r := BackfillHasResults(hasResults, resultsLastUpdate);
            !IsBlank(r) &&
            (hasResults.None? ==> r == "None") &&
            (hasResults.Some? && !IsBlank(hasResults.value) ==> r == hasResults.value) &&
            (hasResults.Some? && IsBlank(hasResults.value) ==>
               (r == "yes" <==> resultsLastUpdate.None? || !IsBlank(resultsLastUpdate.value))) &&
            BackfillHasResults(Some(r), resultsLastUpdate) == r
  {
    var r := BackfillHasResults(hasResults, resultsLastUpdate);
    NotBlankIfFirstNotSpace("None");
    if resultsLastUpdate.None? {
      assert CellText(resultsLastUpdate) == "None";
    }
    if hasResults.None? || IsBlank(hasResults.value) {
      NotBlankIfFirstNotSpace(r);
    }
  }

  // ---------------------------------------------------------------------------
  // Fallback pagination in render_explorer
  // ---------------------------------------------------------------------------

  const PageSize: nat := 25

  /** max(1, ceil(total_rows / page_size)) */
  function TotalPages(totalRows: nat): nat {
    if totalRows == 0 then 1 else (totalRows + PageSize - 1) / PageSize
  }

  function PageStart(page: nat): nat
    requires page >= 1
  {
    (page - 1) * PageSize
  }

  function PageEnd(totalRows: nat, page: nat): nat
    requires page >= 1
  {
    if PageStart(page) + PageSize < totalRows then PageStart(page) + PageSize else totalRows
  }

  /** Every page the page box allows is a slice of at most 25 rows inside the table, and it
      is empty only when the table is. */
  lemma PageBounds(totalRows: nat, page: nat)
    requires 1 <= page <= TotalPages(totalRows)
    ensures TotalPages(totalRows) >= 1
    ensures 0 <= PageStart(page) <= PageEnd(totalRows, page) <= totalRows
    ensures PageEnd(totalRows, page) - PageStart(page) <= PageSize
    ensures totalRows > 0 ==> PageStart(page) < PageEnd(totalRows, page)
    ensures page < TotalPages(totalRows) ==> PageEnd(totalRows, page) - PageStart(page) == PageSize
  {
    if totalRows > 0 {
      assert (page - 1) * PageSize < totalRows by {
        assert page - 1 < (totalRows + PageSize - 1) / PageSize;
        assert (page - 1) * PageSize <= ((totalRows + PageSize - 1) / PageSize - 1) * PageSize;
      }
    }
  }

  /** The pages tile the table: each starts where the previous one ends, the last one ends
      at the last row, and every row is shown on page row / 25 + 1. */
  lemma PagesTile(totalRows: nat, page: nat, row: nat)
    requires 1 <= page < TotalPages(totalRows)
    requires row < totalRows
    ensures PageEnd(totalRows, page) == PageStart(page + 1)
    ensures PageEnd(totalRows, TotalPages(totalRows)) == totalRows
    ensures 1 <= row / PageSize + 1 <= TotalPages(totalRows)
    ensures PageStart(row / PageSize + 1) <= row < PageEnd(totalRows, row / PageSize + 1)
  {
    PageBounds(totalRows, page);
    var last := TotalPages(totalRows);
    assert (last - 1) * PageSize < totalRows <= last * PageSize;
    assert row / PageSize < last;
  }

  // ---------------------------------------------------------------------------
  // _build_query_mask
  // ---------------------------------------------------------------------------

  /** query.replace(",", " OR ") */
  function ReplaceCommas(q: string): (r: string)
    decreases |q|
  {
    if q == [] then []
    else (if q[0] == ',' then " OR " else [q[0]]) + ReplaceCommas(q[1..])
  }

  lemma {:induction false} ReplaceCommasAppend(a: string, b: string)
    ensures ReplaceCommas(a + b) == ReplaceCommas(a) + ReplaceCommas(b)
    decreases |a|
  {
    if a != [] {
      assert (a + b)[0] == a[0];
      assert (a + b)[1..] == a[1..] + b;
      ReplaceCommasAppend(a[1..], b);
    } else {
      assert a + b == b;
    }
  }

  /** Text without commas is left alone. */
  lemma {:induction false} ReplaceCommasNone(s: string)
    requires ',' !in s
    ensures ReplaceCommas(s) == s
    decreases |s|
  {
    if s != [] {
      ReplaceCommasNone(s[1..]);
    }
  }

  /** Length of the leading run of non-space characters. */
  function WordLen(s: string): (n: nat)
    ensures n <= |s|
    ensures forall i :: 0 <= i < n ==> !IsSpace(s[i])
    ensures n < |s| ==> IsSpace(s[n])
    decreases |s|
  {
    if s == [] || IsSpace(s[0]) then 0 else 1 + WordLen(s[1..])
  }

  /** str.split() with no separator: the runs of non-space characters. */
  function Words(s: string): seq<string>
    decreases |s|
  {
    if s == [] then []
    else if IsSpace(s[0]) then Words(s[1..])
    else [s[..WordLen(s)]] + Words(s[WordLen(s)..])
  }

  /** A word run stops at a space, so appending after a space does not change it. */
  lemma {:induction false} WordLenAppend(a: string, b: string)
    requires b == [] || IsSpace(b[0])
    ensures WordLen(a + b) == WordLen(a)
    decreases |a|
  {
    if a != [] && !IsSpace(a[0]) {
      assert (a + b)[1..] == a[1..] + b;
      WordLenAppend(a[1..], b);
    }
  }

  /** Spaces split words: the words of a + space + b are those of a, then those of b. */
  lemma {:induction false} WordsAcrossSpace(a: string, c: char, b: string)
    requires IsSpace(c)
    ensures Words(a + [c] + b) == Words(a) + Words(b)
    decreases |a|
  {
    var s := a + [c] + b;
    if a == [] {
      assert s[1..] == b;
    } else if IsSpace(a[0]) {
      assert s[1..] == a[1..] + [c] + b;
      WordsAcrossSpace(a[1..], c, b);
    } else {
      WordLenAppend(a, [c] + b);
      assert s == a + ([c] + b);
      var n := WordLen(a);
      assert s[..n] == a[..n];
      assert s[n..] == a[n..] + [c] + b;
      WordsAcrossSpace(a[n..], c, b);
    }
  }

  /** Leading and trailing white space carries no words. */
  lemma {:induction false} WordsOfSpaces(sp: string, x: string)
    requires AllSpace(sp)
    ensures Words(sp + x) == Words(x)
    decreases |sp|
  {
    if sp == [] {
      assert sp + x == x;
    } else {
      assert (sp + x)[0] == sp[0];
      assert (sp + x)[1..] == sp[1..] + x;
      WordsOfSpaces(sp[1..], x);
    }
  }

  lemma {:induction false} WordsTrailingSpaces(x: string, sp: string)
    requires AllSpace(sp)
    ensures Words(x + sp) == Words(x)
    decreases |x| + |sp|
  {
    if sp == [] {
      assert x + sp == x;
    } else if x == [] {
      WordsOfSpaces(sp, []);
      assert x + sp == sp + [];
    } else {
      assert x + sp == x + [sp[0]] + sp[1..];
      WordsAcrossSpace(x, sp[0], sp[1..]);
      WordsOfSpaces(sp[1..], []);
      assert sp[1..] + [] == sp[1..];
    }
  }

  /** The text handed to the tokenizer: the stripped query with every comma replaced by " OR ". */
  function Normalized(query: string): string {
    ReplaceCommas(Trim(query))
  }

  /** The fallback tokens of a query: normalized.split(). */
  function FallbackTokens(query: string): seq<string> {
    Words(Normalized(query))
  }

  /** What str.strip() removes around the query. */
  lemma TrimParts(s: string) returns (pre: string, post: string)
    ensures s == pre + Trim(s) + post && AllSpace(pre) && AllSpace(post)
  {
    var lo := SkipSpaces(s, 0);
    var hi := BackSpaces(s, lo, |s|);
    pre, post := s[..lo], s[hi..];
    assert s[..hi] == pre + s[lo..hi];
    assert s == s[..hi] + post;
  }

  lemma ReplaceCommas3(a: string, b: string, c: string)
    ensures ReplaceCommas(a + b + c) == ReplaceCommas(a) + ReplaceCommas(b) + ReplaceCommas(c)
  {
    ReplaceCommasAppend(a + b, c);
    ReplaceCommasAppend(a, b);
  }

  /** White space around a text carries no words. */
  lemma WordsPadded(pre: string, m: string, post: string)
    requires AllSpace(pre) && AllSpace(post)
    ensures Words(pre + m + post) == Words(m)
  {
    assert pre + m + post == pre + (m + post);
    WordsOfSpaces(pre, m + post);
    WordsTrailingSpaces(m, post);
  }

  lemma SpacesHaveNoComma(s: string)
    requires AllSpace(s)
    ensures ReplaceCommas(s) == s
  {
    assert ',' !in s by {
      assert !IsSpace(',');
    }
    ReplaceCommasNone(s);
  }

  /** Stripping the query first makes no difference to its words. */
  lemma TrimmedWords(query: string)
    ensures FallbackTokens(query) == Words(ReplaceCommas(query))
  {
    var pre, post := TrimParts(query);
    var t := Trim(query);
    ReplaceCommas3(pre, t, post);
    SpacesHaveNoComma(pre);
    SpacesHaveNoComma(post);
    WordsPadded(pre, ReplaceCommas(t), post);
  }

  /** The words on either side of a spaced " OR ". */
  lemma WordsAroundOr(x: string, y: string)
    ensures Words(x + " OR " + y) == Words(x) + ["OR"] + Words(y)
  {
    assert x + " OR " + y == x + [' '] + ("OR" + [' '] + y);
    WordsAcrossSpace(x, ' ', "OR" + [' '] + y);
    WordsAcrossSpace("OR", ' ', y);
    assert !IsSpace('O') && !IsSpace('R');
    assert WordLen("OR"[2..]) == 0;
    assert WordLen("OR"[1..]) == 1;
    assert WordLen("OR") == 2;
    assert "OR"[..2] == "OR" && "OR"[2..] == [];
    assert Words("OR") == ["OR"];
  }

  /** Under the fallback tokenizer a comma is exactly an OR between its two sides. */
  lemma CommaTokens(a: string, b: string)
    ensures FallbackTokens(a + "," + b) == FallbackTokens(a + " OR " + b)
    ensures FallbackTokens(a + "," + b) == Words(ReplaceCommas(a)) + ["OR"] + Words(ReplaceCommas(b))
  {
    TrimmedWords(a + "," + b);
    TrimmedWords(a + " OR " + b);
    ReplaceCommasAround(a, b);
    WordsAroundOr(ReplaceCommas(a), ReplaceCommas(b));
  }

  /** str.lstrip() */
  function TrimStart(s: string): string {
    s[SkipSpaces(s, 0)..]
  }

  /** str.rstrip() */
  function TrimEnd(s: string): string {
    s[..BackSpaces(s, 0, |s|)]
  }

  /** Stripping text joined between two non-blank parts strips only the outer ends. */
  lemma TrimJoined(a: string, m: string, b: string)
    requires !IsBlank(a) && !IsBlank(b)
    ensures Trim(a + m + b) == TrimStart(a) + m + TrimEnd(b)
  {
    TrimEmptyIff(a);
    TrimEmptyIff(b);
    var lo := SkipSpaces(a, 0);
    var hi := BackSpaces(b, 0, |b|);
    var t := a[lo..] + m + b[..hi];
    assert t[0] == a[lo] && t[|t| - 1] == b[hi - 1];
    assert a + m + b == a[..lo] + t + b[hi..];
    TrimPadded(a[..lo], t, b[hi..]);
  }

  /** With text on both sides, a comma and a spaced OR normalise to the same text, so any
      tokenizer sees the two queries alike. */
  lemma CommaNormalized(a: string, b: string)
    requires !IsBlank(a) && !IsBlank(b)
    ensures Normalized(a + "," + b) == Normalized(a + " OR " + b)
  {
    TrimJoined(a, ",", b);
    TrimJoined(a, " OR ", b);
    ReplaceCommasAround(TrimStart(a), TrimEnd(b));
  }

  /** Replacing the commas turns a comma and a spaced OR into the same text. */
  lemma ReplaceCommasAround(a: string, b: string)
    ensures ReplaceCommas(a + "," + b) == ReplaceCommas(a) + " OR " + ReplaceCommas(b)
    ensures ReplaceCommas(a + " OR " + b) == ReplaceCommas(a) + " OR " + ReplaceCommas(b)
  {
    ReplaceCommas3(a, ",", b);
    ReplaceCommas3(a, " OR ", b);
    ReplaceCommasNone(" OR ");
    assert ReplaceCommas(",") == " OR ";
  }

  /** Tokens that steer the grouping. */
  predicate IsOr(token: string) { Upper(token) == "OR" }
  predicate IsAnd(token: string) { Upper(token) == "AND" }

  /** One token of the group loop: OR opens a new group when the current one is not empty,
      AND is skipped, anything else joins the current group. */
  function GroupStep(groups: seq<seq<string>>, token: string): (r: seq<seq<string>>)
    requires groups != []
    ensures r != []
  {
    var last := groups[|groups| - 1];
    if IsOr(token) then (if last != [] then groups + [[]] else groups)
    else if IsAnd(token) then groups
    else groups[..|groups| - 1] + [last + [token]]
  }

  /** The group loop from a given start. */
  function Fold(groups: seq<seq<string>>, tokens: seq<string>): (r: seq<seq<string>>)
    requires groups != []
    ensures r != []
    decreases |tokens|
  {
    if tokens == [] then groups else Fold(GroupStep(groups, tokens[0]), tokens[1..])
  }

  lemma {:induction false} FoldAppend(groups: seq<seq<string>>, xs: seq<string>, ys: seq<string>)
    requires groups != []
    ensures Fold(groups, xs + ys) == Fold(Fold(groups, xs), ys)
    decreases |xs|
  {
    if xs == [] {
      assert xs + ys == ys;
    } else {
      assert (xs + ys)[0] == xs[0];
      assert (xs + ys)[1..] == xs[1..] + ys;
      FoldAppend(GroupStep(groups, xs[0]), xs[1..], ys);
    }
  }

  /** The groups before the current one are never touched again. */
  lemma {:induction false} FoldKeepsPrefix(prefix: seq<seq<string>>, groups: seq<seq<string>>, tokens: seq<string>)
    requires groups != []
    ensures Fold(prefix + groups, tokens) == prefix + Fold(groups, tokens)
    decreases |tokens|
  {
    if tokens != [] {
      var n := |groups| - 1;
      assert (prefix + groups)[..|prefix + groups| - 1] == prefix + groups[..n];
      assert GroupStep(prefix + groups, tokens[0]) == prefix + GroupStep(groups, tokens[0]);
      FoldKeepsPrefix(prefix, GroupStep(groups, tokens[0]), tokens[1..]);
    }
  }

  /** [g for g in groups if g] */
  function NonEmpty(groups: seq<seq<string>>): (r: seq<seq<string>>)
    ensures forall k :: 0 <= k < |r| ==> r[k] != []
    decreases |groups|
  {
    if groups == [] then []
    else (if groups[0] != [] then [groups[0]] else []) + NonEmpty(groups[1..])
  }

  lemma {:induction false} NonEmptyAppend(a: seq<seq<string>>, b: seq<seq<string>>)
    ensures NonEmpty(a + b) == NonEmpty(a) + NonEmpty(b)
    decreases |a|
  {
    if a == [] {
      assert a + b == b;
    } else {
      assert (a + b)[0] == a[0];
      assert (a + b)[1..] == a[1..] + b;
      NonEmptyAppend(a[1..], b);
    }
  }

  /** The OR groups of a token list, each a non-empty list of AND terms. */
  function Groups(tokens: seq<string>): seq<seq<string>> {
    NonEmpty(Fold([[]], tokens))
  }

  /** An OR token closes the current group: what is left is some groups with the same
      non-empty ones, then a fresh empty group. */
  lemma OrStep(groups: seq<seq<string>>, or: string) returns (p: seq<seq<string>>)
    requires groups != [] && IsOr(or)
    ensures GroupStep(groups, or) == p + [[]]
    ensures NonEmpty(p) == NonEmpty(groups)
  {
    var n := |groups| - 1;
    if groups[n] != [] {
      p := groups;
    } else {
      p := groups[..n];
      assert groups == p + [groups[n]];
      NonEmptyAppend(p, [groups[n]]);
      assert [groups[n]][1..] == [];
      assert NonEmpty([groups[n]]) == [];
    }
  }

  /** OR splits the query: the groups of xs OR ys are the groups of xs, then those of ys. */
  lemma OrSplits(xs: seq<string>, or: string, ys: seq<string>)
    requires IsOr(or)
    ensures Groups(xs + [or] + ys) == Groups(xs) + Groups(ys)
  {
    var f := Fold([[]], xs);
    assert xs + [or] + ys == xs + ([or] + ys);
    FoldAppend([[]], xs, [or] + ys);
    assert ([or] + ys)[1..] == ys;
    assert Fold(f, [or] + ys) == Fold(GroupStep(f, or), ys);
    var p := OrStep(f, or);
    FoldKeepsPrefix(p, [[]], ys);
    NonEmptyAppend(p, Fold([[]], ys));
  }

  /** The terms of a token list: everything but OR and AND, in order. */
  function Terms(tokens: seq<string>): seq<string>
    decreases |tokens|
  {
    if tokens == [] then []
    else (if IsOr(tokens[0]) || IsAnd(tokens[0]) then [] else [tokens[0]]) + Terms(tokens[1..])
  }

  /** Without OR, every term lands in the current group. */
  lemma {:induction false} FoldWithoutOr(g: seq<string>, tokens: seq<string>)
    requires forall k :: 0 <= k < |tokens| ==> !IsOr(tokens[k])
    ensures Fold([g], tokens) == [g + Terms(tokens)]
    decreases |tokens|
  {
    if tokens != [] {
      var g' := if IsAnd(tokens[0]) then g else g + [tokens[0]];
      assert GroupStep([g], tokens[0]) == [g'];
      assert !IsOr(tokens[0]);
      FoldWithoutOr(g', tokens[1..]);
      assert g' + Terms(tokens[1..]) == g + Terms(tokens);
    } else {
      assert g + Terms(tokens) == g;
    }
  }

  /** AND restricts: a query without OR is one group holding all of its terms (or none). */
  lemma AndGroups(tokens: seq<string>)
    requires forall k :: 0 <= k < |tokens| ==> !IsOr(tokens[k])
    ensures Groups(tokens) == if Terms(tokens) == [] then [] else [Terms(tokens)]
  {
    var t := Terms(tokens);
    FoldWithoutOr([], tokens);
    assert [] + t == t;
    NonEmptySingle(t);
  }

  lemma NonEmptySingle(g: seq<string>)
    ensures NonEmpty([g]) == if g == [] then [] else [g]
  {
    assert [g][1..] == [];
  }

  /** Upper-case substring test, as pandas str.contains(case=False, regex=False) does. */
  predicate ContainsTerm(text: string, term: string) {
    Contains(Upper(text), Upper(term))
  }

  /** All terms of a group occur in the text (a left fold, as the term loop computes it). */
  predicate AllTerms(text: string, terms: seq<string>)
    decreases |terms|
  {
    terms == [] ||
    (AllTerms(text, terms[..|terms| - 1]) && ContainsTerm(text, terms[|terms| - 1]))
  }

  /** Some group matches the text (a left fold, as the group loop computes it). */
  predicate AnyGroup(text: string, groups: seq<seq<string>>)
    decreases |groups|
  {
    groups != [] &&
    (AnyGroup(text, groups[..|groups| - 1]) || AllTerms(text, groups[|groups| - 1]))
  }

  lemma {:induction false} AllTermsIff(text: string, terms: seq<string>)
    ensures AllTerms(text, terms) <==> forall k :: 0 <= k < |terms| ==> ContainsTerm(text, terms[k])
    decreases |terms|
  {
    if terms != [] {
      var n := |terms| - 1;
      AllTermsIff(text, terms[..n]);
      assert forall k :: 0 <= k < n ==> terms[..n][k] == terms[k];
    }
  }

  lemma {:induction false} AnyGroupIff(text: string, groups: seq<seq<string>>)
    ensures AnyGroup(text, groups) <==> exists k :: 0 <= k < |groups| && AllTerms(text, groups[k])
    decreases |groups|
  {
    if groups != [] {
      var n := |groups| - 1;
      AnyGroupIff(text, groups[..n]);
      if exists k :: 0 <= k < |groups| && AllTerms(text, groups[k]) {
        var k :| 0 <= k < |groups| && AllTerms(text, groups[k]);
        if k < n {
          assert groups[..n][k] == groups[k];
        }
      }
      if AnyGroup(text, groups[..n]) {
        var k :| 0 <= k < n && AllTerms(text, groups[..n][k]);
        assert groups[..n][k] == groups[k];
      }
    }
  }

  /** One row against the query's tokens: every row matches a query with no groups. */
  predicate TokensMatch(text: string, tokens: seq<string>) {
    Groups(tokens) == [] || AnyGroup(text, Groups(tokens))
  }

  /** The tokens of a non-blank query: shlex.split of the normalised text when it succeeds
      (`shlex` is that library call, None standing for its ValueError), the fallback split
      otherwise. */
  function QueryTokens(query: string, shlex: string -> Option<seq<string>>): seq<string> {
    var normalized := Normalized(query);
    if shlex(normalized).Some? then shlex(normalized).value else Words(normalized)
  }

  /** A shlex.split that raises ValueError on every text, leaving the fallback split. */
  function ShlexFails(normalized: string): Option<seq<string>> { None }

  /** A row matches the query: a blank query matches everything. */
  predicate QueryMatches(text: string, query: string, shlex: string -> Option<seq<string>>) {
    Trim(query) == "" || TokensMatch(text, QueryTokens(query, shlex))
  }

  /** " | ".join of the row's cells, with missing cells as "". */
  function RowText(cells: seq<string>): string {
    Join(cells, " | ")
  }

  /** Every term of the group occurs in the text. */
  predicate HoldsAll(text: string, terms: seq<string>) {
    forall j :: 0 <= j < |terms| ==> ContainsTerm(text, terms[j])
  }

  /** A row matches exactly when some group has all its terms in the row text, or the query
      has no group at all. */
  lemma QueryMatchesIff(text: string, query: string, shlex: string -> Option<seq<string>>)
    ensures var groups := Groups(QueryTokens(query, shlex));
            QueryMatches(text, query, shlex) <==>
              Trim(query) == "" || groups == [] ||
              exists k :: 0 <= k < |groups| && HoldsAll(text, groups[k])
  {
    var groups := Groups(QueryTokens(query, shlex));
    AnyGroupIff(text, groups);
    forall k | 0 <= k < |groups| ensures AllTerms(text, groups[k]) == HoldsAll(text, groups[k]) {
      AllTermsIff(text, groups[k]);
    }
  }

  /** OR broadens: with a group on each side, a row matches xs OR ys exactly when it matches
      xs or matches ys. */
  lemma OrBroadens(text: string, xs: seq<string>, or: string, ys: seq<string>)
    requires IsOr(or) && Groups(xs) != [] && Groups(ys) != []
    ensures TokensMatch(text, xs + [or] + ys) <==> TokensMatch(text, xs) || TokensMatch(text, ys)
  {
    OrSplits(xs, or, ys);
    var a, b := Groups(xs), Groups(ys);
    AnyGroupIff(text, a + b);
    AnyGroupIff(text, a);
    AnyGroupIff(text, b);
    if AnyGroup(text, a + b) {
      var k :| 0 <= k < |a + b| && AllTerms(text, (a + b)[k]);
      if k >= |a| {
        assert (a + b)[k] == b[k - |a|];
      }
    }
    if AnyGroup(text, b) {
      var k :| 0 <= k < |b| && AllTerms(text, b[k]);
      assert (a + b)[|a| + k] == b[k];
    }
    if AnyGroup(text, a) {
      var k :| 0 <= k < |a| && AllTerms(text, a[k]);
      assert (a + b)[k] == a[k];
    }
  }

  /** AND restricts: without OR, a row matches exactly when it holds every term. */
  lemma AndRestricts(text: string, tokens: seq<string>)
    requires forall k :: 0 <= k < |tokens| ==> !IsOr(tokens[k])
    ensures TokensMatch(text, tokens) <==>
              forall k :: 0 <= k < |Terms(tokens)| ==> ContainsTerm(text, Terms(tokens)[k])
  {
    AndGroups(tokens);
    AllTermsIff(text, Terms(tokens));
    if Terms(tokens) != [] {
      assert AnyGroup(text, [Terms(tokens)]) <==> AllTerms(text, Terms(tokens)) by {
        assert [Terms(tokens)][..0] == [];
      }
    }
  }

  /** A comma between two non-blank parts behaves like OR, whatever shlex does. */
  lemma CommaIsOr(text: string, a: string, b: string, shlex: string -> Option<seq<string>>)
    requires !IsBlank(a) && !IsBlank(b)
    ensures QueryMatches(text, a + "," + b, shlex) == QueryMatches(text, a + " OR " + b, shlex)
  {
    CommaNormalized(a, b);
    assert (a + "," + b) != [] && (a + " OR " + b) != [];
    NotBlankContaining(a + "," + b, |a|);
    NotBlankContaining(a + " OR " + b, |a| + 1);
  }

  /** Under the fallback split a comma behaves like OR for any two parts, blank or not. */
  lemma CommaIsOrFallback(text: string, a: string, b: string)
    ensures QueryMatches(text, a + "," + b, ShlexFails) == QueryMatches(text, a + " OR " + b, ShlexFails)
  {
    CommaTokens(a, b);
    assert (a + "," + b) != [] && (a + " OR " + b) != [];
    NotBlankContaining(a + "," + b, |a|);
    NotBlankContaining(a + " OR " + b, |a| + 1);
  }

  /** A string with a non-space character is not blank. */
  lemma NotBlankContaining(s: string, i: nat)
    requires i < |s| && !IsSpace(s[i])
    ensures Trim(s) != ""
  {
    TrimEmptyIff(s);
  }

  /** The group loop of _build_query_mask. */
  method BuildGroups(tokens: seq<string>) returns (groups: seq<seq<string>>)
    ensures groups == Groups(tokens)
  {
    var raw: seq<seq<string>> := [[]];
    for i := 0 to |tokens|
      invariant raw == Fold([[]], tokens[..i])
    {
      var token := tokens[i];
      var upper := Upper(token);
      FoldAppend([[]], tokens[..i], [token]);
      assert tokens[..i + 1] == tokens[..i] + [token];
      if upper == "OR" {
        if raw[|raw| - 1] != [] {
          raw := raw + [[]];
        }
      } else if upper == "AND" {
        continue;
      } else {
        raw := raw[..|raw| - 1] + [raw[|raw| - 1] + [token]];
      }
    }
    assert tokens[..|tokens|] == tokens;
    groups := NonEmpty(raw);
  }

  /** The mask loops: for each group, AND its term masks over all rows, then OR the group
      masks together. */
  method GroupsMask(texts: seq<string>, groups: seq<seq<string>>) returns (mask: seq<bool>)
    ensures |mask| == |texts|
    ensures forall r :: 0 <= r < |texts| ==> mask[r] == AnyGroup(texts[r], groups)
  {
    mask := seq(|texts|, r => false);
    for i := 0 to |groups|
      invariant |mask| == |texts|
      invariant forall r :: 0 <= r < |texts| ==> mask[r] == AnyGroup(texts[r], groups[..i])
    {
      var terms := groups[i];
      var groupMask := seq(|texts|, r => true);
      for j := 0 to |terms|
        invariant |groupMask| == |texts|
        invariant forall r :: 0 <= r < |texts| ==> groupMask[r] == AllTerms(texts[r], terms[..j])
      {
        assert terms[..j + 1][..j] == terms[..j];
        groupMask := seq(|texts|, r requires 0 <= r < |texts| => groupMask[r] && ContainsTerm(texts[r], terms[j]));
      }
      assert terms[..|terms|] == terms;
      assert groups[..i + 1][..i] == groups[..i];
      mask := seq(|texts|, r requires 0 <= r < |texts| => mask[r] || groupMask[r]);
    }
    assert groups[..|groups|] == groups;
  }

  /** _build_query_mask over the rows' cells, with shlex.split as an input function. */
  method QueryMask(rows: seq<seq<string>>, query: string, shlex: string -> Option<seq<string>>)
    returns (mask: seq<bool>)
    ensures |mask| == |rows|
    ensures forall r :: 0 <= r < |rows| ==> mask[r] == QueryMatches(RowText(rows[r]), query, shlex)
  {
    var q := Trim(query);
    if q == "" {
      return seq(|rows|, r => true);
    }
    var tokens := QueryTokens(query, shlex);
    var groups := BuildGroups(tokens);
    if groups == [] {
      return seq(|rows|, r => true);
    }
    var texts := seq(|rows|, r requires 0 <= r < |rows| => RowText(rows[r]));
    mask := GroupsMask(texts, groups);
  }

  /** The documented example: AND keeps one group of both terms. */
  lemma AndExample()
    ensures Groups(["kras", "AND", "metastatic"]) == [["kras", "metastatic"]]
  {
    assert Upper("kras") == "KRAS" && Upper("AND") == "AND" && Upper("metastatic") == "METASTATIC";
    AndGroups(["kras", "AND", "metastatic"]);
    assert Terms(["kras", "AND", "metastatic"]) == ["kras", "metastatic"];
  }

  /** The documented example: OR gives two groups. */
  lemma OrExample()
    ensures Groups(["radiotherapy", "OR", "biomarker"]) == [["radiotherapy"], ["biomarker"]]
  {
    assert Upper("radiotherapy") == "RADIOTHERAPY" && Upper("OR") == "OR";
    assert Upper("biomarker") == "BIOMARKER";
    OrSplits(["radiotherapy"], "OR", ["biomarker"]);
    AndGroups(["radiotherapy"]);
    assert Terms(["radiotherapy"]) == ["radiotherapy"];
    AndGroups(["biomarker"]);
    assert Terms(["biomarker"]) == ["biomarker"];
    assert ["radiotherapy"] + ["OR"] + ["biomarker"] == ["radiotherapy", "OR", "biomarker"];
  }
}
