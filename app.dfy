/**
 * The application state of the dashboard: the company list and the metric
 * list, each an array of `{name, selected}` records, and the handlers the
 * sidebar calls to flip one record, select everything or clear everything.
 */
module App {
  import opened Wrappers
  import opened Controls
  import opened EmojiChart

  // ---------------------------------------------------------------------
  // The selection lists as values
  // ---------------------------------------------------------------------

  /** The list with the record at `index` flipped. */
  function Flip(s: seq<Choice>, index: int): (r: seq<Choice>)
    requires 0 <= index < |s|
    ensures |r| == |s|
    ensures r[index] == Choice(s[index].name, !s[index].selected)
    ensures forall i :: 0 <= i < |s| && i != index ==> r[i] == s[i]
  {
    s[index := s[index].(selected := !s[index].selected)]
  }

  /** The list with every record's flag set to `selected`: `list.map(c => ({ ...c, selected }))`. */
  function SetAll(s: seq<Choice>, selected: bool): (r: seq<Choice>)
    ensures |r| == |s|
    ensures forall i :: 0 <= i < |s| ==> r[i] == Choice(s[i].name, selected)
  {
    seq(|s|, i requires 0 <= i < |s| => s[i].(selected := selected))
  }

  function Names(s: seq<Choice>): seq<string> {
    seq(|s|, i requires 0 <= i < |s| => s[i].name)
  }

  function Flags(s: seq<Choice>): seq<bool> {
    seq(|s|, i requires 0 <= i < |s| => s[i].selected)
  }

  /** Flipping keeps the names and changes the flag vector at `index` only. */
  lemma FlipKeepsNames(s: seq<Choice>, index: int)
    requires 0 <= index < |s|
    ensures Names(Flip(s, index)) == Names(s)
    ensures Flags(Flip(s, index)) == Flags(s)[index := !s[index].selected]
  {
  }

  /** Flipping the same index twice restores the list. */
  lemma FlipTwice(s: seq<Choice>, index: int)
    requires 0 <= index < |s|
    ensures Flip(Flip(s, index), index) == s
  {
  }

  /** Selecting or clearing all keeps the names, in order. */
  lemma SetAllKeepsNames(s: seq<Choice>, selected: bool)
    ensures Names(SetAll(s, selected)) == Names(s)
    ensures forall i :: 0 <= i < |s| ==> SetAll(s, selected)[i].selected == selected
  {
  }

  /** Selecting or clearing all twice is the same as once. */
  lemma SetAllIdempotent(s: seq<Choice>, selected: bool)
    ensures SetAll(SetAll(s, selected), selected) == SetAll(s, selected)
  {
  }

  /** The result of selecting or clearing all depends on the names only, not on the prior flags. */
  lemma SetAllForgetsFlags(s: seq<Choice>, t: seq<Choice>, selected: bool)
    requires Names(s) == Names(t)
    ensures SetAll(s, selected) == SetAll(t, selected)
  {
    assert |s| == |Names(s)| == |Names(t)| == |t|;
    forall i | 0 <= i < |s|
      ensures s[i].name == t[i].name
    {
      assert Names(s)[i] == Names(t)[i];
    }
  }

  /** After clearing all, the grid shows no company row and no metric column. */
  lemma ClearAllEmptiesGrid(calculate: (seq<Row>, seq<string>) -> Averages, companies: seq<Choice>,
                            metrics: seq<Choice>, data: seq<Row>, selectedEmoji: Option<Emoji>)
    requires AveragesFit(calculate, SetAll(companies, false), SetAll(metrics, false), data)
    ensures Render(calculate, SetAll(companies, false), SetAll(metrics, false), data, selectedEmoji).rows == []
    ensures Render(calculate, SetAll(companies, false), SetAll(metrics, false), data, selectedEmoji).footer == []
  {
    RenderEmptySelection(calculate, SetAll(companies, false), SetAll(metrics, false), data, selectedEmoji);
  }

  /** After selecting all, a row is shown exactly when some listed company bears its `Empresa`. */
  lemma SelectAllShowsNamedRows(companies: seq<Choice>, data: seq<Row>, row: Row)
    ensures row in VisibleRows(SetAll(companies, true), data)
        <==> row in data && exists i :: 0 <= i < |companies| && Some(companies[i].name) == Empresa(row)
  {
    var all := SetAll(companies, true);
    VisibleRowMembership(all, data, row);
    if exists i :: 0 <= i < |companies| && Some(companies[i].name) == Empresa(row) {
      var i :| 0 <= i < |companies| && Some(companies[i].name) == Empresa(row);
      assert all[i] in all;
    }
    if exists c :: c in all && c.selected && Some(c.name) == Empresa(row) {
      var c :| c in all && c.selected && Some(c.name) == Empresa(row);
      var i :| 0 <= i < |all| && all[i] == c;
    }
  }

  // ---------------------------------------------------------------------
  // The records as the application holds them: shared mutable objects
  // ---------------------------------------------------------------------

  /** One `{name, selected}` record object. */
  class Selectable {
    const name: string
    var selected: bool

    constructor (name: string, selected: bool)
      ensures this.name == name && this.selected == selected
    {
      this.name := name;
      this.selected := selected;
    }
  }

  /** The records an array holds. */
  ghost function Records(a: array<Selectable>): set<object>
    reads a
  {
    set i | 0 <= i < a.Length :: a[i] as object
  }

  /** No record appears twice in the array. */
  ghost predicate Distinct(a: array<Selectable>)
    reads a
  {
    forall i, j :: 0 <= i < j < a.Length ==> a[i] != a[j]
  }

  /** The list the array of records currently shows. */
  function View(a: array<Selectable>): (s: seq<Choice>)
    reads a, set i | 0 <= i < a.Length :: a[i]
    ensures |s| == a.Length
    ensures forall i :: 0 <= i < a.Length ==> s[i] == Choice(a[i].name, a[i].selected)
  {
    seq(a.Length, i requires 0 <= i < a.Length reads a, set j | 0 <= j < a.Length :: a[j] => Choice(a[i].name, a[i].selected))
  }

  /** Fresh record objects holding the given list (the objects a `map` to new records creates). */
  method NewRecords(cs: seq<Choice>) returns (a: array<Selectable>)
    ensures fresh(a) && Distinct(a)
    ensures forall i :: 0 <= i < a.Length ==> fresh(a[i])
    ensures fresh(Records(a))
    ensures View(a) == cs
  {
    var objs: seq<Selectable> := [];
    while |objs| < |cs|
      invariant |objs| <= |cs|
      invariant forall i :: 0 <= i < |objs| ==> fresh(objs[i])
      invariant forall i :: 0 <= i < |objs| ==> objs[i].name == cs[i].name && objs[i].selected == cs[i].selected
      invariant forall i, j :: 0 <= i < j < |objs| ==> objs[i] != objs[j]
    {
      var r := new Selectable(cs[|objs|].name, cs[|objs|].selected);
      objs := objs + [r];
    }
    a := new Selectable[|objs|](i requires 0 <= i < |objs| => objs[i]);
  }

  /**
   * `const copy = [...list]; copy[index].selected = !copy[index].selected`:
   * a new array holding the same record objects, with the record at `index`
   * flipped in place, so that the previous array shows the flip too.
   */
  method CopyAndFlip(a: array<Selectable>, index: int) returns (copy: array<Selectable>)
    requires 0 <= index < a.Length && Distinct(a)
    modifies a[index]
    ensures fresh(copy) && copy.Length == a.Length && Distinct(copy)
    ensures forall i :: 0 <= i < a.Length ==> copy[i] == a[i]
    ensures View(copy) == Flip(old(View(a)), index)
    ensures View(a) == View(copy)
  {
    copy := new Selectable[a.Length](i requires 0 <= i < a.Length reads a => a[i]);
    copy[index].selected := !copy[index].selected;
  }

  /** The state of the application component: the two selection lists. */
  class Dashboard {
    var companies: array<Selectable>
    var metrics: array<Selectable>
    ghost var Repr: set<object>

    /** Both arrays and all their records are in Repr, and no record is shared between two places. */
    ghost predicate Valid()
      reads this, Repr
    {
      && companies in Repr && metrics in Repr && companies != metrics
      && Records(companies) <= Repr && Records(metrics) <= Repr
      && Distinct(companies) && Distinct(metrics)
      && (forall i, j :: 0 <= i < companies.Length && 0 <= j < metrics.Length ==> companies[i] != metrics[j])
    }

    function Companies(): seq<Choice>
      reads this, Repr
      requires Valid()
    {
      View(companies)
    }

    function Metrics(): seq<Choice>
      reads this, Repr
      requires Valid()
    {
      View(metrics)
    }

    /**
     * `useState(COMPANIES)`, `useState(METRICS)`: the state starts as the
     * constants' own arrays and record objects, not as copies of them.
     */
    constructor (initialCompanies: array<Selectable>, initialMetrics: array<Selectable>)
      requires initialCompanies != initialMetrics
      requires Distinct(initialCompanies) && Distinct(initialMetrics)
      requires forall i, j :: 0 <= i < initialCompanies.Length && 0 <= j < initialMetrics.Length ==>
                 initialCompanies[i] != initialMetrics[j]
      ensures Valid()
      ensures companies == initialCompanies && metrics == initialMetrics
      ensures Companies() == View(initialCompanies) && Metrics() == View(initialMetrics)
    {
      companies, metrics := initialCompanies, initialMetrics;
      Repr := {initialCompanies, initialMetrics} + Records(initialCompanies) + Records(initialMetrics);
    }

    /**
     * `handleCompanyChange(index)`: flips one company and nothing else. The
     * new array shares its records with the previous one, so the previous
     * array shows the flipped list as well.
     */
    method HandleCompanyChange(index: int)
      requires Valid() && 0 <= index < companies.Length
      modifies this, companies[index]
      ensures Valid() && fresh(Repr - old(Repr))
      ensures fresh(companies) && metrics == old(metrics)
      ensures companies.Length == old(companies).Length
      ensures forall i :: 0 <= i < companies.Length ==> companies[i] == old(companies)[i]
      ensures Companies() == Flip(old(Companies()), index)
      ensures View(old(companies)) == Companies()
      ensures Metrics() == old(Metrics())
    {
      var copy := CopyAndFlip(companies, index);
      companies := copy;
      Repr := Repr + {copy};
    }

    /** `handleMetricChange(index)`: flips one metric and nothing else. */
    method HandleMetricChange(index: int)
      requires Valid() && 0 <= index < metrics.Length
      modifies this, metrics[index]
      ensures Valid() && fresh(Repr - old(Repr))
      ensures fresh(metrics) && companies == old(companies)
      ensures metrics.Length == old(metrics).Length
      ensures forall i :: 0 <= i < metrics.Length ==> metrics[i] == old(metrics)[i]
      ensures Metrics() == Flip(old(Metrics()), index)
      ensures View(old(metrics)) == Metrics()
      ensures Companies() == old(Companies())
    {
      var copy := CopyAndFlip(metrics, index);
      metrics := copy;
      Repr := Repr + {copy};
    }

    /** `handleSelectAll`: fresh records, all selected, same names in the same order. */
    method HandleSelectAll()
      requires Valid()
      modifies this
      ensures Valid() && fresh(Repr - old(Repr))
      ensures fresh(companies) && fresh(metrics) && fresh(Records(companies)) && fresh(Records(metrics))
      ensures Companies() == SetAll(old(Companies()), true)
      ensures Metrics() == SetAll(old(Metrics()), true)
    {
      SetEvery(true);
    }

    /** `handleClearAll`: fresh records, none selected, same names in the same order. */
    method HandleClearAll()
      requires Valid()
      modifies this
      ensures Valid() && fresh(Repr - old(Repr))
      ensures fresh(companies) && fresh(metrics) && fresh(Records(companies)) && fresh(Records(metrics))
      ensures Companies() == SetAll(old(Companies()), false)
      ensures Metrics() == SetAll(old(Metrics()), false)
    {
      SetEvery(false);
    }

    /** Both lists replaced by fresh records whose flag is `selected`. */
    method SetEvery(selected: bool)
      requires Valid()
      modifies this
      ensures Valid() && fresh(Repr - old(Repr))
      ensures fresh(companies) && fresh(metrics) && fresh(Records(companies)) && fresh(Records(metrics))
      ensures Companies() == SetAll(old(Companies()), selected)
      ensures Metrics() == SetAll(old(Metrics()), selected)
    {
      var c := NewRecords(SetAll(Companies(), selected));
      var m := NewRecords(SetAll(Metrics(), selected));
      assert forall i, j :: 0 <= i < c.Length && 0 <= j < m.Length ==> c[i] != m[j];
      companies, metrics := c, m;
      Repr := {c, m} + Records(c) + Records(m);
      assert fresh(Repr);
    }
  }

  /**
   * The first flip after start-up writes through to the constant's own
   * record: the array passed in as the initial company list shows the flip.
   */
  method FlipReachesConstant(initialCompanies: array<Selectable>, initialMetrics: array<Selectable>, index: int)
      returns (d: Dashboard)
    requires initialCompanies != initialMetrics
    requires Distinct(initialCompanies) && Distinct(initialMetrics)
    requires forall i, j :: 0 <= i < initialCompanies.Length && 0 <= j < initialMetrics.Length ==>
               initialCompanies[i] != initialMetrics[j]
    requires 0 <= index < initialCompanies.Length
    modifies initialCompanies[index]
    ensures d.Valid()
    ensures View(initialCompanies) == Flip(old(View(initialCompanies)), index)
    ensures View(initialCompanies) == d.Companies()
  {
    d := new Dashboard(initialCompanies, initialMetrics);
    d.HandleCompanyChange(index);
  }
}
