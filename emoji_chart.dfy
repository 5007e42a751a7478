/**
 * The logic of the emoji grid: classifying a number by the emoji table,
 * deciding which cards are highlighted under the emoji filter, choosing the
 * rows and columns to show from the company and metric selections, reading
 * a cell as a number, and laying out the desktop grid with the averages
 * that an external collaborator computes over the same selection.
 */
module EmojiChart {
  import opened Wrappers
  import opened Controls

  /** A JavaScript number as the grid uses it: only compared, never computed with. */
  datatype Num = Finite(x: real) | NaN

  /** The emoji shown for a value that no table entry contains. */
  const Fallback: Emoji := "😐"

  /** `value >= range[0] && value <= range[1]`: every comparison with NaN is false. */
  predicate Within(r: EmojiRange, v: Num)
    ensures Within(r, v) ==> v.Finite? && r.lo <= r.hi
  {
    v.Finite? && r.lo as real <= v.x && v.x <= r.hi as real
  }

  // ---------------------------------------------------------------------
  // Classification: `getEmojiForValue`
  // ---------------------------------------------------------------------

  /** `Array.prototype.find` over the table: the first entry that contains v. */
  function FindRange(t: seq<EmojiRange>, v: Num): (r: Option<EmojiRange>)
    ensures r.Some? ==> r.value in t && Within(r.value, v)
    ensures r.None? <==> forall i :: 0 <= i < |t| ==> !Within(t[i], v)
  {
    if t == [] then None
    else if Within(t[0], v) then Some(t[0])
    else FindRange(t[1..], v)
  }

  /** The search returns the entry at the first index whose range contains v. */
  lemma {:induction false} FindRangeIsFirst(t: seq<EmojiRange>, v: Num, i: int)
    requires 0 <= i < |t| && Within(t[i], v)
    requires forall j :: 0 <= j < i ==> !Within(t[j], v)
    ensures FindRange(t, v) == Some(t[i])
  {
    if i > 0 {
      FindRangeIsFirst(t[1..], v, i - 1);
    }
  }

  /** When at most one entry contains v, the search finds any entry that contains it, wherever it stands. */
  lemma FindRangeOrderFree(t: seq<EmojiRange>, v: Num, e: EmojiRange)
    requires forall i, j :: 0 <= i < |t| && 0 <= j < |t| && Within(t[i], v) && Within(t[j], v) ==> t[i] == t[j]
    requires e in t && Within(e, v)
    ensures FindRange(t, v) == Some(e)
  {
    var k :| 0 <= k < |t| && t[k] == e;
    var r := FindRange(t, v);
    var m :| 0 <= m < |t| && t[m] == r.value;
  }

  /** No value, integer or not, lies in two different entries of the table. */
  lemma TableDisjoint(i: int, j: int, v: Num)
    requires 0 <= i < |EmojiRanges| && 0 <= j < |EmojiRanges| && i != j
    ensures !(Within(EmojiRanges[i], v) && Within(EmojiRanges[j], v))
  {
    TableShape();
    if i < j {
      ContiguousDescending(EmojiRanges, i, j);
    } else {
      ContiguousDescending(EmojiRanges, j, i);
    }
  }

  /**
   * The search gives the same answer over any table that lists the same
   * entries in another order (or repeats some): the result does not depend
   * on the order of the table.
   */
  lemma ReorderedTable(t: seq<EmojiRange>, v: Num)
    requires forall e :: e in t <==> e in EmojiRanges
    ensures FindRange(t, v) == FindRange(EmojiRanges, v)
  {
    forall i, j | 0 <= i < |t| && 0 <= j < |t| && Within(t[i], v) && Within(t[j], v)
      ensures t[i] == t[j]
    {
      assert t[i] in EmojiRanges && t[j] in EmojiRanges;
      var a :| 0 <= a < |EmojiRanges| && EmojiRanges[a] == t[i];
      var b :| 0 <= b < |EmojiRanges| && EmojiRanges[b] == t[j];
      if a != b {
        TableDisjoint(a, b, v);
      }
    }
    forall i, j | 0 <= i < |EmojiRanges| && 0 <= j < |EmojiRanges| && Within(EmojiRanges[i], v) && Within(EmojiRanges[j], v)
      ensures EmojiRanges[i] == EmojiRanges[j]
    {
      if i != j {
        TableDisjoint(i, j, v);
      }
    }
    var r := FindRange(EmojiRanges, v);
    if r.Some? {
      FindRangeOrderFree(EmojiRanges, v, r.value);
      FindRangeOrderFree(t, v, r.value);
    } else {
      forall i | 0 <= i < |t|
        ensures !Within(t[i], v)
      {
        assert t[i] in EmojiRanges;
      }
    }
  }

  /** `getEmojiForValue`: the emoji of the first containing entry, or the fallback (`range?.emoji || '😐'`). */
  function EmojiForValue(v: Num): (e: Emoji)
    ensures e in TableEmojis()
  {
    var r := FindRange(EmojiRanges, v);
    assert Fallback == EmojiRanges[2].emoji;
    if r.Some? && r.value.emoji != "" then r.value.emoji else Fallback
  }

  /** A value in the range of entry i gets the emoji of entry i. */
  lemma ClassifiedByEntry(v: Num, i: int)
    requires 0 <= i < |EmojiRanges| && Within(EmojiRanges[i], v)
    ensures EmojiForValue(v) == EmojiRanges[i].emoji
  {
    forall j | 0 <= j < i
      ensures !Within(EmojiRanges[j], v)
    {
      TableDisjoint(i, j, v);
    }
    FindRangeIsFirst(EmojiRanges, v, i);
  }

  /** A value in no range gets the fallback. */
  lemma UnclassifiedIsFallback(v: Num)
    requires forall i :: 0 <= i < |EmojiRanges| ==> !Within(EmojiRanges[i], v)
    ensures EmojiForValue(v) == Fallback
  {
  }

  /**
   * The thresholds written out as a chain of comparisons, independently of
   * the table: the bucket a value falls in, or the fallback for NaN, values
   * outside 0..100 and values strictly between two ranges.
   */
  function Bucket(v: Num): Emoji {
    if v.NaN? then Fallback
    else if 90.0 <= v.x <= 100.0 then "😁"
    else if 70.0 <= v.x <= 89.0 then "😊"
    else if 50.0 <= v.x <= 69.0 then "😐"
    else if 30.0 <= v.x <= 49.0 then "😕"
    else if 0.0 <= v.x <= 29.0 then "😢"
    else Fallback
  }

  /** The table search agrees with the threshold chain on every value. */
  lemma EmojiForValueIsBucket(v: Num)
    ensures EmojiForValue(v) == Bucket(v)
  {
    if v.NaN? {
      UnclassifiedIsFallback(v);
    } else if 90.0 <= v.x <= 100.0 {
      ClassifiedByEntry(v, 0);
    } else if 70.0 <= v.x <= 89.0 {
      ClassifiedByEntry(v, 1);
    } else if 50.0 <= v.x <= 69.0 {
      ClassifiedByEntry(v, 2);
    } else if 30.0 <= v.x <= 49.0 {
      ClassifiedByEntry(v, 3);
    } else if 0.0 <= v.x <= 29.0 {
      ClassifiedByEntry(v, 4);
    } else {
      assert !Within(EmojiRanges[0], v) && !Within(EmojiRanges[1], v) && !Within(EmojiRanges[2], v);
      assert !Within(EmojiRanges[3], v) && !Within(EmojiRanges[4], v);
      UnclassifiedIsFallback(v);
    }
  }

  /** Every integer in 0..100 is classified by the one entry whose range holds it. */
  lemma ClassifyInteger(n: int)
    requires 0 <= n <= 100
    ensures exists i :: 0 <= i < |EmojiRanges| && Covers(EmojiRanges[i], n) && EmojiForValue(Finite(n as real)) == EmojiRanges[i].emoji
  {
    var i := TableCoversExactlyOnce(n);
    ClassifiedByEntry(Finite(n as real), i);
  }

  /** NaN, values below 0 and values above 100 get the fallback. */
  lemma OutOfRangeIsFallback(v: Num)
    requires v.NaN? || v.x < 0.0 || v.x > 100.0
    ensures EmojiForValue(v) == Fallback
  {
    EmojiForValueIsBucket(v);
  }

  /** A value strictly between the ranges of two neighbouring entries gets the fallback. */
  lemma GapIsFallback(v: Num, i: int)
    requires 0 <= i < |EmojiRanges| - 1
    requires v.Finite? && EmojiRanges[i + 1].hi as real < v.x < EmojiRanges[i].lo as real
    ensures EmojiForValue(v) == Fallback
  {
    assert EmojiRanges[i + 1].hi + 1 == EmojiRanges[i].lo;
    assert Bucket(v) == Fallback;
    EmojiForValueIsBucket(v);
  }

  /** Averages such as 89.5 and 29.5 fall in a gap; 89 and 90 do not. */
  lemma GapExamples()
    ensures EmojiForValue(Finite(89.5)) == Fallback
    ensures EmojiForValue(Finite(29.5)) == Fallback
    ensures EmojiForValue(Finite(89.0)) == "😊"
    ensures EmojiForValue(Finite(90.0)) == "😁"
  {
    EmojiForValueIsBucket(Finite(89.5));
    EmojiForValueIsBucket(Finite(29.5));
    EmojiForValueIsBucket(Finite(89.0));
    EmojiForValueIsBucket(Finite(90.0));
  }

  // ---------------------------------------------------------------------
  // Highlighting: `shouldHighlight`
  // ---------------------------------------------------------------------

  /** `shouldHighlight`: everything when no emoji (or a falsy one) is selected, else the cards of that emoji. */
  function ShouldHighlight(selected: Option<Emoji>, v: Num): (h: bool)
    ensures selected.None? || selected == Some("") ==> h
    ensures h && selected.Some? && selected.value != "" ==> selected.value in TableEmojis()
  {
    if selected.None? || selected.value == "" then true
    else EmojiForValue(v) == selected.value
  }

  /** With no emoji selected every value is highlighted. */
  lemma HighlightAllWithoutSelection(v: Num)
    ensures ShouldHighlight(None, v)
  {
  }

  /**
   * With the emoji of entry i selected, a value is highlighted exactly when
   * it lies in that entry's range or, for the fallback emoji, in no range.
   */
  lemma HighlightSelectedEntry(i: int, v: Num)
    requires 0 <= i < |EmojiRanges|
    ensures ShouldHighlight(Some(EmojiRanges[i].emoji), v)
        <==> Within(EmojiRanges[i], v)
             || (EmojiRanges[i].emoji == Fallback && forall j :: 0 <= j < |EmojiRanges| ==> !Within(EmojiRanges[j], v))
  {
    EmojisDistinct();
    var r := FindRange(EmojiRanges, v);
    if r.Some? {
      var k :| 0 <= k < |EmojiRanges| && EmojiRanges[k] == r.value;
      ClassifiedByEntry(v, k);
      if k != i {
        TableDisjoint(i, k, v);
      }
    }
  }

  /** Selecting the fallback emoji also highlights NaN, out-of-range and in-between values. */
  lemma HighlightUnclassified(v: Num)
    requires v.NaN? || v.x < 0.0 || v.x > 100.0 || (exists i :: 0 <= i < |EmojiRanges| - 1 && EmojiRanges[i + 1].hi as real < v.x < EmojiRanges[i].lo as real)
    ensures ShouldHighlight(Some(Fallback), v)
  {
    if v.Finite? && 0.0 <= v.x <= 100.0 {
      var i :| 0 <= i < |EmojiRanges| - 1 && EmojiRanges[i + 1].hi as real < v.x < EmojiRanges[i].lo as real;
      GapIsFallback(v, i);
    } else {
      OutOfRangeIsFallback(v);
    }
  }

  /** An emoji that is not in the table highlights nothing. */
  lemma HighlightForeignEmoji(e: Emoji, v: Num)
    requires e != "" && e !in TableEmojis()
    ensures !ShouldHighlight(Some(e), v)
  {
  }

  // ---------------------------------------------------------------------
  // Row and column selection: `filter`, `some`, `map`
  // ---------------------------------------------------------------------

  /** `Array.prototype.filter`: the elements satisfying p, in their order. */
  function Filter<T(!new)>(s: seq<T>, p: T -> bool): (r: seq<T>)
    ensures |r| <= |s|
    ensures forall x :: x in r <==> x in s && p(x)
  {
    if s == [] then []
    else (if p(s[0]) then [s[0]] else []) + Filter(s[1..], p)
  }

  /** The filter keeps exactly the positions whose element satisfies p, in increasing order. */
  lemma FilterPositions<T(!new)>(s: seq<T>, p: T -> bool) returns (ix: seq<nat>)
    ensures |ix| == |Filter(s, p)|
    ensures forall k :: 0 <= k < |ix| ==> ix[k] < |s| && Filter(s, p)[k] == s[ix[k]]
    ensures forall k, l :: 0 <= k < l < |ix| ==> ix[k] < ix[l]
    ensures forall i :: 0 <= i < |s| ==> (p(s[i]) <==> i in ix)
  {
    ix := Kept(s, p);
    KeptElements(s, p);
    KeptIncreasing(s, p);
    KeptMembers(s, p);
  }

  /** The positions of `s` whose element satisfies p, from the left. */
  ghost function Kept<T(!new)>(s: seq<T>, p: T -> bool): (ix: seq<nat>)
    ensures |ix| == |Filter(s, p)|
  {
    if s == [] then []
    else (if p(s[0]) then [0] else []) + Shift(Kept(s[1..], p))
  }

  /** The k-th kept position holds the filter's k-th element. */
  lemma {:induction false} KeptElements<T(!new)>(s: seq<T>, p: T -> bool)
    ensures forall k :: 0 <= k < |Kept(s, p)| ==> Kept(s, p)[k] < |s| && Filter(s, p)[k] == s[Kept(s, p)[k]]
  {
    if s != [] {
      KeptElements(s[1..], p);
      ConsElements(s, Kept(s, p), Filter(s, p), Kept(s[1..], p), Filter(s[1..], p), p(s[0]));
    }
  }

  /**
   * The step of KeptElements on plain sequences: if `rest` indexes `tail`
   * in `s[1..]`, the shifted positions, after 0 when the head is kept,
   * index the filter of `s`.
   */
  lemma ConsElements<T>(s: seq<T>, ix: seq<nat>, r: seq<T>, rest: seq<nat>, tail: seq<T>, head: bool)
    requires s != [] && |rest| == |tail|
    requires ix == (if head then [0] else []) + Shift(rest)
    requires r == (if head then [s[0]] else []) + tail
    requires forall j :: 0 <= j < |rest| ==> rest[j] < |s| - 1 && tail[j] == s[1..][rest[j]]
    ensures forall k :: 0 <= k < |ix| ==> ix[k] < |s| && r[k] == s[ix[k]]
  {
    forall k | 0 <= k < |ix|
      ensures ix[k] < |s| && r[k] == s[ix[k]]
    {
      if !head {
        assert ix[k] == rest[k] + 1 && r[k] == tail[k];
        assert tail[k] == s[1..][rest[k]];
      } else if k > 0 {
        assert ix[k] == rest[k - 1] + 1 && r[k] == tail[k - 1];
        assert tail[k - 1] == s[1..][rest[k - 1]];
      }
    }
  }

  /** The kept positions increase strictly. */
  lemma {:induction false} KeptIncreasing<T(!new)>(s: seq<T>, p: T -> bool)
    ensures Increasing(Kept(s, p))
  {
    if s != [] {
      KeptIncreasing(s[1..], p);
      var shifted := Shift(Kept(s[1..], p));
      ShiftIncreasing(Kept(s[1..], p));
      if p(s[0]) {
        ShiftPositive(Kept(s[1..], p));
        ZeroBeforeIncreasing(shifted);
      }
    }
  }

  predicate Increasing(xs: seq<nat>) {
    forall k, l :: 0 <= k < l < |xs| ==> xs[k] < xs[l]
  }

  lemma ShiftIncreasing(xs: seq<nat>)
    requires Increasing(xs)
    ensures Increasing(Shift(xs))
  {
  }

  lemma ZeroBeforeIncreasing(xs: seq<nat>)
    requires Increasing(xs) && 0 !in xs
    ensures Increasing([0] + xs)
  {
    var ys := [0] + xs;
    forall k, l | 0 <= k < l < |ys|
      ensures ys[k] < ys[l]
    {
      assert ys[l] == xs[l - 1];
      if k > 0 {
        assert ys[k] == xs[k - 1];
      }
    }
  }

  /** A position is kept exactly when its element satisfies p. */
  lemma {:induction false} KeptMembers<T(!new)>(s: seq<T>, p: T -> bool)
    ensures forall i :: 0 <= i < |s| ==> (p(s[i]) <==> i in Kept(s, p))
  {
    if s != [] {
      KeptMembers(s[1..], p);
      var rest := Kept(s[1..], p);
      var ix := Kept(s, p);
      forall i | 0 <= i < |s|
        ensures p(s[i]) <==> i in ix
      {
        if i == 0 {
          ShiftPositive(rest);
        } else {
          assert s[i] == s[1..][i - 1];
          ShiftMember(rest, i);
        }
      }
    }
  }

  /** A shifted list holds no 0. */
  lemma ShiftPositive(xs: seq<nat>)
    ensures 0 !in Shift(xs)
  {
  }

  /** A position is in the shifted list exactly when the one before it is in the list. */
  lemma ShiftMember(xs: seq<nat>, i: int)
    requires i > 0
    ensures i in Shift(xs) <==> i - 1 in xs
  {
    var ys := Shift(xs);
    if i - 1 in xs {
      var k :| 0 <= k < |xs| && xs[k] == i - 1;
      assert ys[k] == i;
    }
    if i in ys {
      var k :| 0 <= k < |ys| && ys[k] == i;
      assert xs[k] == i - 1;
    }
  }

  /** Every position moved one place to the right. */
  ghost function Shift(xs: seq<nat>): (r: seq<nat>)
    ensures |r| == |xs|
    ensures forall k :: 0 <= k < |xs| ==> r[k] == xs[k] + 1
  {
    seq(|xs|, k requires 0 <= k < |xs| => xs[k] + 1)
  }

  /** A filter that no element passes is empty. */
  lemma {:induction false} FilterNothing<T(!new)>(s: seq<T>, p: T -> bool)
    requires forall i :: 0 <= i < |s| ==> !p(s[i])
    ensures Filter(s, p) == []
  {
    if s != [] {
      FilterNothing(s[1..], p);
    }
  }

  /** One `{name, selected}` record of the company or metric lists, as a value. */
  datatype Choice = Choice(name: string, selected: bool)

  predicate IsSelected(c: Choice) {
    c.selected
  }

  /** `companies.filter(c => c.selected)`, `metrics.filter(m => m.selected)`. */
  function SelectedOf(cs: seq<Choice>): (r: seq<Choice>)
    ensures forall c :: c in r <==> c in cs && c.selected
  {
    Filter(cs, IsSelected)
  }

  /** A data row: a record from column name to cell text. */
  type Row = map<string, string>

  /** `row.Empresa`: the company a row belongs to, absent when the row has no such field. */
  function Empresa(row: Row): Option<string> {
    if "Empresa" in row then Some(row["Empresa"]) else None
  }

  /** `selectedCompanies.some(c => c.name === row.Empresa)`. */
  predicate RowSelected(selectedCompanies: seq<Choice>, row: Row)
    ensures RowSelected(selectedCompanies, row) ==> Empresa(row).Some?
  {
    exists i :: 0 <= i < |selectedCompanies| && Some(selectedCompanies[i].name) == Empresa(row)
  }

  /** The row predicate of the grid for the given company list. */
  function ShowsRow(companies: seq<Choice>): Row -> bool {
    row => RowSelected(SelectedOf(companies), row)
  }

  /** `data.filter(row => selectedCompanies.some(...))`: the rows of the grid and of the averages. */
  function VisibleRows(companies: seq<Choice>, data: seq<Row>): (r: seq<Row>)
    ensures forall row :: row in r ==> row in data && Empresa(row).Some?
  {
    Filter(data, ShowsRow(companies))
  }

  /** `selectedMetrics.map(m => m.name)`: the grid's columns. */
  function MetricNames(metrics: seq<Choice>): (names: seq<string>)
    ensures |names| == |SelectedOf(metrics)|
    ensures forall j :: 0 <= j < |names| ==> names[j] == SelectedOf(metrics)[j].name
  {
    var selected := SelectedOf(metrics);
    seq(|selected|, j requires 0 <= j < |selected| => selected[j].name)
  }

  /** A row is shown exactly when some selected company bears its `Empresa`. */
  lemma VisibleRowMembership(companies: seq<Choice>, data: seq<Row>, row: Row)
    ensures row in VisibleRows(companies, data)
        <==> row in data && exists c :: c in companies && c.selected && Some(c.name) == Empresa(row)
  {
    var selected := SelectedOf(companies);
    if exists c :: c in companies && c.selected && Some(c.name) == Empresa(row) {
      var c :| c in companies && c.selected && Some(c.name) == Empresa(row);
      assert c in selected;
      var i :| 0 <= i < |selected| && selected[i] == c;
    }
    if RowSelected(selected, row) {
      var i :| 0 <= i < |selected| && Some(selected[i].name) == Empresa(row);
      assert selected[i] in selected;
    }
  }

  /**
   * The grid's rows are the data rows whose `Empresa` is a selected
   * company's name, in data order: `ix` gives their positions in `data`.
   */
  lemma VisibleRowsInOrder(companies: seq<Choice>, data: seq<Row>) returns (ix: seq<nat>)
    ensures |ix| == |VisibleRows(companies, data)|
    ensures forall k :: 0 <= k < |ix| ==> ix[k] < |data| && VisibleRows(companies, data)[k] == data[ix[k]]
    ensures forall k, l :: 0 <= k < l < |ix| ==> ix[k] < ix[l]
    ensures forall d :: 0 <= d < |data| ==> (RowSelected(SelectedOf(companies), data[d]) <==> d in ix)
  {
    ix := FilterPositions(data, ShowsRow(companies));
  }

  /** The grid's columns are the selected metrics' names, in metric order: `ix` gives their positions. */
  lemma ColumnsInOrder(metrics: seq<Choice>) returns (ix: seq<nat>)
    ensures |ix| == |MetricNames(metrics)|
    ensures forall k :: 0 <= k < |ix| ==> ix[k] < |metrics| && MetricNames(metrics)[k] == metrics[ix[k]].name
    ensures forall k, l :: 0 <= k < l < |ix| ==> ix[k] < ix[l]
    ensures forall m :: 0 <= m < |metrics| ==> (metrics[m].selected <==> m in ix)
  {
    ix := FilterPositions(metrics, IsSelected);
  }

  // ---------------------------------------------------------------------
  // Cells: `parseInt(row[metric.name] || '0', 10)`
  // ---------------------------------------------------------------------

  predicate IsDigit(c: char) {
    '0' <= c <= '9'
  }

  predicate AllDigits(s: string) {
    forall i :: 0 <= i < |s| ==> IsDigit(s[i])
  }

  /** The white space `parseInt` skips before the number (the ASCII part of it). */
  predicate IsSpace(c: char) {
    c == ' ' || c == '\t' || c == '\n' || c == '\r' || c == '\U{000B}' || c == '\U{000C}'
  }

  function TrimStart(s: string): (t: string)
    ensures |t| <= |s| && t == s[|s| - |t|..]
    ensures t == [] || !IsSpace(t[0])
  {
    if s != [] && IsSpace(s[0]) then TrimStart(s[1..]) else s
  }

  /** The longest prefix of decimal digits. */
  function DigitPrefix(s: string): (p: string)
    ensures p <= s && AllDigits(p)
    ensures |p| < |s| ==> !IsDigit(s[|p|])
  {
    if s != [] && IsDigit(s[0]) then [s[0]] + DigitPrefix(s[1..]) else []
  }

  /** The value of a string of decimal digits, read from the most significant digit. */
  function DigitsValue(ds: string): nat
    requires AllDigits(ds)
  {
    if ds == [] then 0
    else 10 * DigitsValue(ds[..|ds| - 1]) + (ds[|ds| - 1] as int - '0' as int)
  }

  /** `parseInt(s, 10)`: white space, an optional sign, then at least one digit; NaN otherwise. */
  function ParseInt(s: string): (r: Num)
    ensures TrimStart(s) == [] ==> r == NaN
    ensures r.Finite? ==> r.x == r.x.Floor as real
  {
    var t := TrimStart(s);
    var negative := t != [] && t[0] == '-';
    var body := if t != [] && (t[0] == '-' || t[0] == '+') then t[1..] else t;
    var ds := DigitPrefix(body);
    if ds == [] then NaN
    else
      var n: int := if negative then -(DigitsValue(ds) as int) else DigitsValue(ds);
      Finite(n as real)
  }

  /** `row[metric] || '0'`: a missing or empty cell reads as "0". */
  function CellText(row: Row, metric: string): (t: string)
    ensures t != ""
    ensures metric in row && row[metric] != "" ==> t == row[metric]
    ensures metric !in row || row[metric] == "" ==> t == "0"
  {
    if metric in row && row[metric] != "" then row[metric] else "0"
  }

  /** The number a cell shows. */
  function CellValue(row: Row, metric: string): (v: Num)
    ensures metric !in row || row[metric] == "" ==> v == Finite(0.0)
    ensures v.Finite? ==> v.x == v.x.Floor as real
  {
    ParseDigits("0");
    ParseInt(CellText(row, metric))
  }

  /** The decimal numeral of n, without leading zeros. */
  function Decimal(n: nat): (s: string)
    ensures s != [] && AllDigits(s)
  {
    var d := ['0' + (n % 10) as char];
    if n < 10 then d else Decimal(n / 10) + d
  }

  /** Reading a numeral gives back the number it was written from. */
  lemma {:induction false} DecimalValue(n: nat)
    ensures DigitsValue(Decimal(n)) == n
  {
    var s := Decimal(n);
    if n >= 10 {
      DecimalValue(n / 10);
      assert s[..|s| - 1] == Decimal(n / 10);
    }
  }

  /** A non-empty cell made only of digits is read as the number it spells. */
  lemma ParseDigits(s: string)
    requires s != [] && AllDigits(s)
    ensures ParseInt(s) == Finite(DigitsValue(s) as real)
  {
    assert TrimStart(s) == s;
    assert DigitPrefix(s) == s;
  }

  /** `parseInt` round-trips the decimal numeral of every natural number. */
  lemma ParseDecimal(n: nat)
    ensures ParseInt(Decimal(n)) == Finite(n as real)
  {
    ParseDigits(Decimal(n));
    DecimalValue(n);
  }

  /** A missing or empty cell is read as 0; a cell holding a numeral is read as its number. */
  lemma CellValueSpec(row: Row, metric: string)
    ensures metric !in row || row[metric] == "" ==> CellValue(row, metric) == Finite(0.0)
    ensures forall n: nat {:trigger Decimal(n)} :: metric in row && row[metric] == Decimal(n) ==> CellValue(row, metric) == Finite(n as real)
  {
    ParseDecimal(0);
    assert Decimal(0) == "0";
    forall n: nat | metric in row && row[metric] == Decimal(n)
      ensures CellValue(row, metric) == Finite(n as real)
    {
      ParseDecimal(n);
    }
  }

  /** Text that starts with digits reads as the value of those digits. */
  lemma ParseLeadingDigits(ds: string, rest: string)
    requires ds != [] && AllDigits(ds)
    requires rest == [] || !IsDigit(rest[0])
    ensures ParseInt(ds + rest) == Finite(DigitsValue(ds) as real)
  {
    var s := ds + rest;
    assert s[0] == ds[0];
    assert !IsSpace(s[0]) && s[0] != '-' && s[0] != '+';
    assert TrimStart(s) == s;
    DigitPrefixOfDigits(ds, rest);
  }

  /** Text starting with a character that is no space, sign or digit reads as NaN. */
  lemma ParseNoDigit(rest: string)
    requires rest != [] && !IsDigit(rest[0]) && !IsSpace(rest[0]) && rest[0] != '-' && rest[0] != '+'
    ensures ParseInt(rest) == NaN
  {
    assert TrimStart(rest) == rest;
    assert DigitPrefix(rest) == [];
  }

  lemma {:induction false} DigitPrefixOfDigits(ds: string, rest: string)
    requires AllDigits(ds)
    requires rest == [] || !IsDigit(rest[0])
    ensures DigitPrefix(ds + rest) == ds
  {
    if ds != [] {
      assert (ds + rest)[1..] == ds[1..] + rest;
      DigitPrefixOfDigits(ds[1..], rest);
    }
  }

  // ---------------------------------------------------------------------
  // The desktop grid
  // ---------------------------------------------------------------------

  /** What `calculateAverages` returns: one average per column and one per row. */
  datatype Averages = Averages(columnAverages: seq<Num>, rowAverages: seq<Num>)

  /** The props of one `EmojiCard`. */
  datatype Card = Card(value: Num, metricName: string, companyName: string,
                       metricAverage: Num, companyAverage: Num, highlighted: bool)

  /** One grid row: the company's label, a card per selected metric, and the row's average card. */
  datatype GridRow = GridRow(company: string, cards: seq<Card>, average: Card)

  /** The grid: the column headers, the company rows, and the footer of column averages. */
  datatype Grid = Grid(header: seq<string>, rows: seq<GridRow>, footer: seq<Card>)

  /** The averages of the selection, as the collaborator computes them from the shown rows and columns. */
  function AveragesOf(calculate: (seq<Row>, seq<string>) -> Averages, companies: seq<Choice>,
                      metrics: seq<Choice>, data: seq<Row>): Averages
  {
    calculate(VisibleRows(companies, data), MetricNames(metrics))
  }

  /** The collaborator returns one average per shown column and one per shown row. */
  predicate AveragesFit(calculate: (seq<Row>, seq<string>) -> Averages, companies: seq<Choice>,
                        metrics: seq<Choice>, data: seq<Row>)
  {
    var avg := AveragesOf(calculate, companies, metrics, data);
    |avg.columnAverages| == |MetricNames(metrics)| && |avg.rowAverages| == |VisibleRows(companies, data)|
  }

  /** `row.Empresa` of a shown row, which always has one. */
  function CompanyOf(row: Row): string {
    match Empresa(row)
    case Some(name) => name
    case None => ""
  }

  /** The grid the component renders for the given selections and emoji filter. */
  function Render(calculate: (seq<Row>, seq<string>) -> Averages, companies: seq<Choice>,
                  metrics: seq<Choice>, data: seq<Row>, selectedEmoji: Option<Emoji>): (g: Grid)
    requires AveragesFit(calculate, companies, metrics, data)
    ensures g.header == MetricNames(metrics)
    ensures |g.rows| == |VisibleRows(companies, data)|
    ensures forall i :: 0 <= i < |g.rows| ==> |g.rows[i].cards| == |MetricNames(metrics)|
    ensures |g.footer| == |MetricNames(metrics)|
  {
    var rows := VisibleRows(companies, data);
    var names := MetricNames(metrics);
    var avg := AveragesOf(calculate, companies, metrics, data);
    Grid(
      names,
      seq(|rows|, i requires 0 <= i < |rows| =>
        GridRow(
          CompanyOf(rows[i]),
          seq(|names|, j requires 0 <= j < |names| =>
            var value := CellValue(rows[i], names[j]);
            Card(value, names[j], CompanyOf(rows[i]), avg.columnAverages[j], avg.rowAverages[i],
                 ShouldHighlight(selectedEmoji, value))),
          Card(avg.rowAverages[i], "Promedio", CompanyOf(rows[i]), avg.rowAverages[i], avg.rowAverages[i],
               ShouldHighlight(selectedEmoji, avg.rowAverages[i])))),
      seq(|avg.columnAverages|, j requires 0 <= j < |avg.columnAverages| =>
        Card(avg.columnAverages[j], names[j], "Promedio General", avg.columnAverages[j], avg.columnAverages[j],
             ShouldHighlight(selectedEmoji, avg.columnAverages[j]))))
  }

  /**
   * Grid row i shows data row `ix[i]` (the rows in data order whose company
   * is selected), and each of its cards shows that row's cell under the j-th
   * selected metric, next to the j-th column average and the i-th row
   * average, which the collaborator computed from the same i-th row.
   */
  lemma RenderAlignsAverages(calculate: (seq<Row>, seq<string>) -> Averages, companies: seq<Choice>,
                             metrics: seq<Choice>, data: seq<Row>, selectedEmoji: Option<Emoji>)
    returns (ix: seq<nat>)
    requires AveragesFit(calculate, companies, metrics, data)
    ensures var g := Render(calculate, companies, metrics, data, selectedEmoji);
            && |ix| == |g.rows|
            && (forall k, l :: 0 <= k < l < |ix| ==> ix[k] < ix[l])
            && (forall d :: 0 <= d < |data| ==> (RowSelected(SelectedOf(companies), data[d]) <==> d in ix))
            && (forall i :: 0 <= i < |ix| ==>
                  (ix[i] < |data|
                   && VisibleRows(companies, data)[i] == data[ix[i]]
                   && Empresa(data[ix[i]]) == Some(g.rows[i].company)))
  {
    ix := VisibleRowsInOrder(companies, data);
    var g := Render(calculate, companies, metrics, data, selectedEmoji);
    forall i | 0 <= i < |ix|
      ensures Empresa(data[ix[i]]) == Some(g.rows[i].company)
    {
      assert RowSelected(SelectedOf(companies), data[ix[i]]);
    }
  }

  /** The card at row i, column j of the grid, and the row's average card. */
  lemma RenderCard(calculate: (seq<Row>, seq<string>) -> Averages, companies: seq<Choice>,
                   metrics: seq<Choice>, data: seq<Row>, selectedEmoji: Option<Emoji>, i: int, j: int)
    requires AveragesFit(calculate, companies, metrics, data)
    requires 0 <= i < |VisibleRows(companies, data)| && 0 <= j < |MetricNames(metrics)|
    ensures var g := Render(calculate, companies, metrics, data, selectedEmoji);
            var avg := AveragesOf(calculate, companies, metrics, data);
            var row := VisibleRows(companies, data)[i];
            var card := g.rows[i].cards[j];
            && card.value == CellValue(row, MetricNames(metrics)[j])
            && card.metricName == MetricNames(metrics)[j]
            && Some(card.companyName) == Empresa(row)
            && card.metricAverage == avg.columnAverages[j]
            && card.companyAverage == avg.rowAverages[i]
            && g.rows[i].average.value == avg.rowAverages[i]
            && (card.highlighted <==> selectedEmoji.None? || selectedEmoji.value == "" || EmojiForValue(card.value) == selectedEmoji.value)
  {
    var rows := VisibleRows(companies, data);
    assert rows[i] in rows;
    assert RowSelected(SelectedOf(companies), rows[i]);
  }

  /**
   * The average cards: row i's closing card shows the i-th row average under
   * "Promedio", and footer card j shows the j-th column average under the
   * j-th selected metric and "Promedio General"; each is highlighted by the
   * emoji of the average itself.
   */
  lemma RenderAverageCards(calculate: (seq<Row>, seq<string>) -> Averages, companies: seq<Choice>,
                           metrics: seq<Choice>, data: seq<Row>, selectedEmoji: Option<Emoji>)
    requires AveragesFit(calculate, companies, metrics, data)
    ensures var g := Render(calculate, companies, metrics, data, selectedEmoji);
            var avg := AveragesOf(calculate, companies, metrics, data);
            && (forall i :: 0 <= i < |g.rows| ==>
                  g.rows[i].average == Card(avg.rowAverages[i], "Promedio", g.rows[i].company,
                                            avg.rowAverages[i], avg.rowAverages[i],
                                            ShouldHighlight(selectedEmoji, avg.rowAverages[i])))
            && (forall i :: 0 <= i < |g.rows| ==> Some(g.rows[i].company) == Empresa(VisibleRows(companies, data)[i]))
            && (forall j :: 0 <= j < |g.footer| ==>
                  g.footer[j] == Card(avg.columnAverages[j], SelectedOf(metrics)[j].name, "Promedio General",
                                      avg.columnAverages[j], avg.columnAverages[j],
                                      ShouldHighlight(selectedEmoji, avg.columnAverages[j])))
  {
    var rows := VisibleRows(companies, data);
    forall i | 0 <= i < |rows|
      ensures Some(CompanyOf(rows[i])) == Empresa(rows[i])
    {
      assert rows[i] in rows;
      assert RowSelected(SelectedOf(companies), rows[i]);
    }
  }

  /** With no company selected the grid has no rows; with no metric selected it has no metric columns. */
  lemma RenderEmptySelection(calculate: (seq<Row>, seq<string>) -> Averages, companies: seq<Choice>,
                             metrics: seq<Choice>, data: seq<Row>, selectedEmoji: Option<Emoji>)
    requires AveragesFit(calculate, companies, metrics, data)
    ensures (forall c :: c in companies ==> !c.selected) ==> Render(calculate, companies, metrics, data, selectedEmoji).rows == []
    ensures (forall m :: m in metrics ==> !m.selected) ==> Render(calculate, companies, metrics, data, selectedEmoji).footer == []
  {
    if forall c :: c in companies ==> !c.selected {
      FilterNothing(companies, IsSelected);
      FilterNothing(data, ShowsRow(companies));
    }
    if forall m :: m in metrics ==> !m.selected {
      FilterNothing(metrics, IsSelected);
    }
  }
}
