/** Label lists and the label maps (`model.Metric`) built from them.

    A series carries its labels as a list (`[]prompb.Label`); the adapter turns
    the list into a map by assigning each label in turn, so a later duplicate
    name overwrites an earlier one. `Canon` is the canonical list for such a
    map: sorted by name, one entry per name. */
module Labels {
  import opened Text

  datatype Label = Label(name: string, value: string)

  /** `model.MetricNameLabel`, the reserved label that names the metric. */
  const MetricNameLabel: string := "__name__"

  type LabelMap = map<string, string>

  function Names(ls: seq<Label>): set<string>
  {
    set i | 0 <= i < |ls| :: ls[i].name
  }

  /** The map built by `metric[l.Name] = l.Value` over the list, in order. */
  function ToMap(ls: seq<Label>): LabelMap
  {
    if |ls| == 0 then map[]
    else ToMap(ls[..|ls| - 1])[ls[|ls| - 1].name := ls[|ls| - 1].value]
  }

  predicate StrictlySorted(ls: seq<Label>)
  {
    forall i, j :: 0 <= i < j < |ls| ==> Less(ls[i].name, ls[j].name)
  }

  /** Ascending by name, equal names allowed. */
  predicate Sorted(ls: seq<Label>)
  {
    forall i, j :: 0 <= i < j < |ls| ==> !Less(ls[j].name, ls[i].name)
  }

  lemma {:induction false} ToMapKeys(ls: seq<Label>)
    ensures ToMap(ls).Keys == Names(ls)
  {
    if |ls| > 0 {
      var init := ls[..|ls| - 1];
      ToMapKeys(init);
      assert Names(ls) == Names(init) + {ls[|ls| - 1].name} by {
        forall n | n in Names(ls) ensures n in Names(init) + {ls[|ls| - 1].name} {
          var i :| 0 <= i < |ls| && ls[i].name == n;
          if i < |ls| - 1 {
            assert init[i] == ls[i];
          }
        }
        forall n | n in Names(init) ensures n in Names(ls) {
          var i :| 0 <= i < |init| && init[i].name == n;
          assert ls[i] == init[i];
        }
      }
    }
  }

  /** Assigning the labels of `a` and then those of `b` gives the union in
      which `b` wins. */
  lemma {:induction false} ToMapAppend(a: seq<Label>, b: seq<Label>)
    ensures ToMap(a + b) == ToMap(a) + ToMap(b)
  {
    if |b| == 0 {
      assert a + b == a;
    } else {
      var init := b[..|b| - 1];
      var last := b[|b| - 1];
      assert (a + b)[..|a + b| - 1] == a + init;
      assert (a + b)[|a + b| - 1] == last;
      ToMapAppend(a, init);
    }
  }

  lemma ToMapCons(l: Label, s: seq<Label>)
    ensures ToMap([l] + s) == map[l.name := l.value] + ToMap(s)
  {
    ToMapAppend([l], s);
    assert [l][..0] == [];
  }

  /** In any list, the map keeps the value of the last label of each name. */
  lemma {:induction false} ToMapLast(ls: seq<Label>, n: string, i: int)
    requires 0 <= i < |ls| && ls[i].name == n
    requires forall j :: i < j < |ls| ==> ls[j].name != n
    ensures n in ToMap(ls) && ToMap(ls)[n] == ls[i].value
  {
    if i < |ls| - 1 {
      var init := ls[..|ls| - 1];
      assert forall j :: i < j < |init| ==> init[j].name != n by {
        forall j | i < j < |init| ensures init[j].name != n {
          assert init[j] == ls[j];
        }
      }
      ToMapLast(init, n, i);
      assert ls[|ls| - 1].name != n;
    }
  }

  /** In a strictly sorted list every label's value is the map's value. */
  lemma {:induction false} StrictLookup(s: seq<Label>, i: int)
    requires StrictlySorted(s) && 0 <= i < |s|
    ensures s[i].name in ToMap(s) && ToMap(s)[s[i].name] == s[i].value
  {
    var init := s[..|s| - 1];
    if i < |s| - 1 {
      assert StrictlySorted(init);
      StrictLookup(init, i);
      assert Less(s[i].name, s[|s| - 1].name);
      LessIrreflexive(s[i].name);
    }
  }

  lemma MapMinusFresh(k: string, v: string, m: LabelMap)
    requires k !in m
    ensures (map[k := v] + m) - {k} == m
  {
  }

  lemma MapConsFresh(k: string, v: string, m: LabelMap)
    requires k !in m
    ensures map[k := v] + m == m[k := v]
  {
  }

  lemma MapReplaceHead(k: string, v0: string, v: string, m: LabelMap)
    requires k !in m
    ensures map[k := v] + m == (map[k := v0] + m)[k := v]
  {
  }

  lemma MapUnionUpdate(a: LabelMap, m: LabelMap, k: string, v: string)
    ensures a + m[k := v] == (a + m)[k := v]
  {
  }

  lemma StrictTailSorted(s: seq<Label>)
    requires StrictlySorted(s) && |s| > 0
    ensures StrictlySorted(s[1..])
  {
    var t := s[1..];
    forall i, j | 0 <= i < j < |t| ensures Less(t[i].name, t[j].name) {
      assert t[i] == s[i + 1] && t[j] == s[j + 1];
    }
  }

  /** Every name after the head of a strictly sorted list is greater than it. */
  lemma StrictHeadLeast(s: seq<Label>, n: string)
    requires StrictlySorted(s) && |s| > 0 && n in Names(s[1..])
    ensures Less(s[0].name, n)
  {
    var t := s[1..];
    var j :| 0 <= j < |t| && t[j].name == n;
    assert t[j] == s[j + 1];
  }

  lemma StrictHeadFresh(s: seq<Label>)
    requires StrictlySorted(s) && |s| > 0
    ensures s[0].name !in Names(s[1..])
  {
    if s[0].name in Names(s[1..]) {
      StrictHeadLeast(s, s[0].name);
      LessIrreflexive(s[0].name);
    }
  }

  /** The map of a list is the head's entry under the map of the tail. */
  lemma ToMapSplit(s: seq<Label>)
    requires |s| > 0
    ensures ToMap(s) == map[s[0].name := s[0].value] + ToMap(s[1..])
  {
    assert s == [s[0]] + s[1..];
    ToMapCons(s[0], s[1..]);
  }

  lemma StrictTail(s: seq<Label>)
    requires StrictlySorted(s) && |s| > 0
    ensures StrictlySorted(s[1..])
    ensures s[0].name !in Names(s[1..])
    ensures ToMap(s[1..]) == ToMap(s) - {s[0].name}
  {
    StrictTailSorted(s);
    StrictHeadFresh(s);
    ToMapSplit(s);
    ToMapKeys(s[1..]);
    MapMinusFresh(s[0].name, s[0].value, ToMap(s[1..]));
  }

  /** A label map has exactly one strictly sorted list. */
  lemma {:induction false} SortedUnique(a: seq<Label>, b: seq<Label>)
    requires StrictlySorted(a) && StrictlySorted(b)
    requires ToMap(a) == ToMap(b)
    ensures a == b
    decreases |a|
  {
    EmptyMapEmptyList(a);
    EmptyMapEmptyList(b);
    if |a| > 0 && |b| > 0 {
      SameHead(a, b);
      StrictTail(a);
      StrictTail(b);
      SortedUnique(a[1..], b[1..]);
      assert a == [a[0]] + a[1..] && b == [b[0]] + b[1..];
    }
  }

  lemma EmptyMapEmptyList(a: seq<Label>)
    ensures ToMap(a) == map[] <==> |a| == 0
  {
    if |a| > 0 {
      ToMapKeys(a);
      assert a[0].name in Names(a);
    }
  }

  lemma SameHead(a: seq<Label>, b: seq<Label>)
    requires StrictlySorted(a) && StrictlySorted(b) && |a| > 0 && |b| > 0
    requires ToMap(a) == ToMap(b)
    ensures a[0] == b[0]
  {
    ToMapKeys(a);
    ToMapKeys(b);
    assert a[0].name in Names(a) && b[0].name in Names(b);
    if a[0].name != b[0].name {
      assert a[0].name in Names(b[1..]) by {
        var j :| 0 <= j < |b| && b[j].name == a[0].name;
        assert b[1..][j - 1] == b[j];
      }
      assert b[0].name in Names(a[1..]) by {
        var i :| 0 <= i < |a| && a[i].name == b[0].name;
        assert a[1..][i - 1] == a[i];
      }
      StrictHeadLeast(b, a[0].name);
      StrictHeadLeast(a, b[0].name);
      LessAsymmetric(a[0].name, b[0].name);
    }
    StrictLookup(a, 0);
    StrictLookup(b, 0);
  }

  /** Sets the entry for `l.name` in a strictly sorted list. */
  function Upsert(s: seq<Label>, l: Label): (r: seq<Label>)
    requires StrictlySorted(s)
    ensures StrictlySorted(r)
    ensures ToMap(r) == ToMap(s)[l.name := l.value]
  {
    if |s| == 0 then
      [l]
    else if s[0].name == l.name then
      UpsertReplace(s, l);
      [l] + s[1..]
    else if Less(l.name, s[0].name) then
      UpsertFront(s, l);
      [l] + s
    else
      StrictTailSorted(s);
      var t := Upsert(s[1..], l);
      UpsertBehind(s, l, t);
      [s[0]] + t
  }

  lemma UpsertReplace(s: seq<Label>, l: Label)
    requires StrictlySorted(s) && |s| > 0 && s[0].name == l.name
    ensures StrictlySorted([l] + s[1..])
    ensures ToMap([l] + s[1..]) == ToMap(s)[l.name := l.value]
  {
    var r := [l] + s[1..];
    forall i, j | 0 <= i < j < |r| ensures Less(r[i].name, r[j].name) {
      assert r[j] == s[j];
      if i > 0 {
        assert r[i] == s[i];
      }
    }
    StrictHeadFresh(s);
    ToMapSplit(s);
    ToMapCons(l, s[1..]);
    ToMapKeys(s[1..]);
    MapReplaceHead(l.name, s[0].value, l.value, ToMap(s[1..]));
  }

  lemma UpsertFront(s: seq<Label>, l: Label)
    requires StrictlySorted(s) && |s| > 0 && Less(l.name, s[0].name)
    ensures StrictlySorted([l] + s)
    ensures ToMap([l] + s) == ToMap(s)[l.name := l.value]
  {
    FrontSorted(s, l);
    ToMapCons(l, s);
    ToMapKeys(s);
    FrontFresh(s, l);
    MapConsFresh(l.name, l.value, ToMap(s));
  }

  lemma FrontSorted(s: seq<Label>, l: Label)
    requires StrictlySorted(s) && |s| > 0 && Less(l.name, s[0].name)
    ensures StrictlySorted([l] + s)
  {
    var r := [l] + s;
    forall i, j | 0 <= i < j < |r| ensures Less(r[i].name, r[j].name) {
      if i == 0 && j > 1 {
        LessTransitive(l.name, s[0].name, s[j - 1].name);
      } else if i > 0 {
        assert r[i] == s[i - 1] && r[j] == s[j - 1];
      }
    }
  }

  lemma FrontFresh(s: seq<Label>, l: Label)
    requires StrictlySorted(s) && |s| > 0 && Less(l.name, s[0].name)
    ensures l.name !in Names(s)
  {
    if l.name in Names(s) {
      var j :| 0 <= j < |s| && s[j].name == l.name;
      if j > 0 {
        LessTransitive(l.name, s[0].name, s[j].name);
      }
      LessIrreflexive(l.name);
    }
  }

  lemma UpsertBehind(s: seq<Label>, l: Label, t: seq<Label>)
    requires StrictlySorted(s) && |s| > 0 && s[0].name != l.name && !Less(l.name, s[0].name)
    requires StrictlySorted(t) && ToMap(t) == ToMap(s[1..])[l.name := l.value]
    ensures StrictlySorted([s[0]] + t)
    ensures ToMap([s[0]] + t) == ToMap(s)[l.name := l.value]
  {
    var r := [s[0]] + t;
    LessTotal(l.name, s[0].name);
    ToMapKeys(t);
    ToMapKeys(s[1..]);
    forall i, j | 0 <= i < j < |r| ensures Less(r[i].name, r[j].name) {
      if i == 0 {
        assert r[j] == t[j - 1];
        assert r[j].name in Names(t);
        if r[j].name != l.name {
          StrictHeadLeast(s, r[j].name);
        }
      } else {
        assert r[i] == t[i - 1] && r[j] == t[j - 1];
      }
    }
    ToMapSplit(s);
    ToMapCons(s[0], t);
    MapUnionUpdate(map[s[0].name := s[0].value], ToMap(s[1..]), l.name, l.value);
  }

  /** The canonical list of the map the labels build: one label per name,
      sorted by name, the last duplicate winning. */
  function Canon(ls: seq<Label>): (r: seq<Label>)
    ensures StrictlySorted(r)
    ensures ToMap(r) == ToMap(ls)
  {
    if |ls| == 0 then []
    else Upsert(Canon(ls[..|ls| - 1]), ls[|ls| - 1])
  }

  /** Two label lists canonicalise alike exactly when they build the same map. */
  lemma CanonDeterminedByMap(a: seq<Label>, b: seq<Label>)
    ensures Canon(a) == Canon(b) <==> ToMap(a) == ToMap(b)
  {
    if ToMap(a) == ToMap(b) {
      SortedUnique(Canon(a), Canon(b));
    }
  }

  lemma CanonOfSorted(s: seq<Label>)
    requires StrictlySorted(s)
    ensures Canon(s) == s
  {
    SortedUnique(Canon(s), s);
  }

  /** Stable insertion by name: `l` goes after every label whose name is not
      greater than its own. */
  function InsertByName(s: seq<Label>, l: Label): (r: seq<Label>)
    requires Sorted(s)
    ensures Sorted(r)
    ensures multiset(r) == multiset(s) + multiset{l}
  {
    if |s| == 0 then [l]
    else if Less(l.name, s[0].name) then
      InsertFront(s, l);
      [l] + s
    else
      var t := InsertByName(s[1..], l);
      InsertBehind(s, l, t);
      [s[0]] + t
  }

  lemma InsertFront(s: seq<Label>, l: Label)
    requires Sorted(s) && |s| > 0 && Less(l.name, s[0].name)
    ensures Sorted([l] + s)
    ensures multiset([l] + s) == multiset(s) + multiset{l}
  {
    var r := [l] + s;
    forall i, j | 0 <= i < j < |r| ensures !Less(r[j].name, r[i].name) {
      if i == 0 {
        if j > 1 {
          LessTotal(s[0].name, s[j - 1].name);
          if Less(s[0].name, s[j - 1].name) {
            LessTransitive(l.name, s[0].name, s[j - 1].name);
          }
        }
        LessAsymmetric(l.name, r[j].name);
      }
    }
  }

  lemma InsertBehind(s: seq<Label>, l: Label, t: seq<Label>)
    requires Sorted(s) && |s| > 0 && !Less(l.name, s[0].name)
    requires Sorted(t) && multiset(t) == multiset(s[1..]) + multiset{l}
    ensures Sorted([s[0]] + t)
    ensures multiset([s[0]] + t) == multiset(s) + multiset{l}
  {
    var r := [s[0]] + t;
    assert s == [s[0]] + s[1..];
    forall i, j | 0 <= i < j < |r| ensures !Less(r[j].name, r[i].name) {
      if i == 0 {
        assert r[j] == t[j - 1];
        assert r[j] in multiset(t);
        if r[j] != l {
          assert r[j] in multiset(s[1..]);
          var k :| 0 <= k < |s[1..]| && s[1..][k] == r[j];
          assert s[k + 1] == r[j];
        }
      }
    }
  }

  lemma NamesOfTail(s: seq<Label>)
    requires |s| > 0
    ensures Names(s[1..]) <= Names(s)
  {
    forall n | n in Names(s[1..]) ensures n in Names(s) {
      var j :| 0 <= j < |s[1..]| && s[1..][j].name == n;
      assert s[j + 1] == s[1..][j];
    }
  }

  /** Inserting a name the list does not have is the same as setting it. */
  lemma {:induction false} InsertByNameFresh(s: seq<Label>, l: Label)
    requires StrictlySorted(s) && Sorted(s) && l.name !in Names(s)
    ensures InsertByName(s, l) == Upsert(s, l)
  {
    if |s| > 0 {
      assert s[0].name in Names(s);
      if !Less(l.name, s[0].name) {
        NamesOfTail(s);
        StrictTailSorted(s);
        SortedTail(s);
        InsertByNameFresh(s[1..], l);
      }
    }
  }

  lemma SortedTail(s: seq<Label>)
    requires Sorted(s) && |s| > 0
    ensures Sorted(s[1..])
  {
    var t := s[1..];
    forall i, j | 0 <= i < j < |t| ensures !Less(t[j].name, t[i].name) {
      assert t[i] == s[i + 1] && t[j] == s[j + 1];
    }
  }

  lemma StrictlySortedIsSorted(s: seq<Label>)
    requires StrictlySorted(s)
    ensures Sorted(s)
  {
    forall i, j | 0 <= i < j < |s| ensures !Less(s[j].name, s[i].name) {
      LessAsymmetric(s[i].name, s[j].name);
    }
  }

  /** The labels other than the metric name, in their original order. */
  function WithoutName(ls: seq<Label>): seq<Label>
  {
    if |ls| == 0 then []
    else if ls[|ls| - 1].name == MetricNameLabel then WithoutName(ls[..|ls| - 1])
    else WithoutName(ls[..|ls| - 1]) + [ls[|ls| - 1]]
  }

  lemma MapUpdateMinus(m: LabelMap, k: string, v: string)
    ensures m[k := v] - {k} == m - {k}
  {
  }

  lemma MapMinusUpdate(m: LabelMap, k: string, v: string, d: string)
    requires k != d
    ensures (m - {d})[k := v] == m[k := v] - {d}
  {
  }

  lemma ToMapSnoc(s: seq<Label>, l: Label)
    ensures ToMap(s + [l]) == ToMap(s)[l.name := l.value]
  {
    assert (s + [l])[..|s|] == s;
  }

  /** Dropping the metric-name labels drops exactly that key from the map. */
  lemma {:induction false} WithoutNameMap(ls: seq<Label>)
    ensures ToMap(WithoutName(ls)) == ToMap(ls) - {MetricNameLabel}
  {
    if |ls| > 0 {
      var init := ls[..|ls| - 1];
      var last := ls[|ls| - 1];
      WithoutNameMap(init);
      if last.name == MetricNameLabel {
        MapUpdateMinus(ToMap(init), last.name, last.value);
      } else {
        ToMapSnoc(WithoutName(init), last);
        MapMinusUpdate(ToMap(init), last.name, last.value, MetricNameLabel);
      }
    }
  }

  lemma {:induction false} WithoutNameNames(ls: seq<Label>)
    ensures Names(WithoutName(ls)) == Names(ls) - {MetricNameLabel}
  {
    WithoutNameMap(ls);
    ToMapKeys(ls);
    ToMapKeys(WithoutName(ls));
  }

  /** In a strictly sorted list every earlier name is below the last one. */
  lemma StrictBelowLast(ls: seq<Label>, n: string)
    requires StrictlySorted(ls) && |ls| > 0 && n in Names(ls[..|ls| - 1])
    ensures Less(n, ls[|ls| - 1].name)
  {
    var init := ls[..|ls| - 1];
    var i :| 0 <= i < |init| && init[i].name == n;
    assert init[i] == ls[i];
  }

  lemma {:induction false} WithoutNameSorted(ls: seq<Label>)
    requires StrictlySorted(ls)
    ensures StrictlySorted(WithoutName(ls))
  {
    if |ls| > 0 {
      var init := ls[..|ls| - 1];
      var last := ls[|ls| - 1];
      assert StrictlySorted(init) by {
        forall i, j | 0 <= i < j < |init| ensures Less(init[i].name, init[j].name) {
          assert init[i] == ls[i] && init[j] == ls[j];
        }
      }
      WithoutNameSorted(init);
      if last.name != MetricNameLabel {
        var w := WithoutName(init);
        var r := w + [last];
        WithoutNameNames(init);
        forall i, j | 0 <= i < j < |r| ensures Less(r[i].name, r[j].name) {
          assert r[i] == w[i];
          if j == |r| - 1 {
            assert w[i].name in Names(w);
            StrictBelowLast(ls, w[i].name);
          } else {
            assert r[j] == w[j];
          }
        }
      }
    }
  }

  lemma StrictlySortedNoDuplicates(ls: seq<Label>, i: int, j: int)
    requires StrictlySorted(ls) && 0 <= i < |ls| && 0 <= j < |ls| && i != j
    ensures ls[i].name != ls[j].name
  {
    if i < j {
      LessIrreflexive(ls[i].name);
    } else {
      LessIrreflexive(ls[j].name);
    }
  }

  /** A label inserted behind its equal names is the one the map keeps. */
  lemma {:induction false} InsertByNameMap(s: seq<Label>, l: Label)
    requires Sorted(s)
    ensures ToMap(InsertByName(s, l)) == ToMap(s)[l.name := l.value]
  {
    if |s| > 0 {
      ToMapSplit(s);
      if Less(l.name, s[0].name) {
        SortedHeadFresh(s, l.name);
        ToMapKeys(s);
        ToMapCons(l, s);
        MapConsFresh(l.name, l.value, ToMap(s));
      } else {
        var t := InsertByName(s[1..], l);
        SortedTail(s);
        InsertByNameMap(s[1..], l);
        ToMapCons(s[0], t);
        MapUnionUpdate(map[s[0].name := s[0].value], ToMap(s[1..]), l.name, l.value);
      }
    }
  }

  lemma SortedHeadFresh(s: seq<Label>, n: string)
    requires Sorted(s) && |s| > 0 && Less(n, s[0].name)
    ensures n !in Names(s)
  {
    if n in Names(s) {
      var j :| 0 <= j < |s| && s[j].name == n;
      if j > 0 {
        assert !Less(s[j].name, s[0].name);
      }
      LessIrreflexive(n);
    }
  }

  /** A strictly sorted list holds exactly the entries of its map. */
  lemma StrictMembership(s: seq<Label>, l: Label)
    requires StrictlySorted(s)
    ensures l in s <==> l.name in ToMap(s) && ToMap(s)[l.name] == l.value
  {
    if l in s {
      var i :| 0 <= i < |s| && s[i] == l;
      StrictLookup(s, i);
    }
    if l.name in ToMap(s) && ToMap(s)[l.name] == l.value {
      ToMapKeys(s);
      var i :| 0 <= i < |s| && s[i].name == l.name;
      StrictLookup(s, i);
      assert s[i] == l;
    }
  }

  /** A strictly sorted list has one entry per key of its map. */
  lemma {:induction false} StrictSize(s: seq<Label>)
    requires StrictlySorted(s)
    ensures |ToMap(s)| == |s|
  {
    if |s| > 0 {
      StrictTail(s);
      StrictSize(s[1..]);
      StrictLookup(s, 0);
      var m := ToMap(s);
      assert (m - {s[0].name}).Keys == m.Keys - {s[0].name};
    }
  }
}
