/**
 * Lesson navigation of the tour's table of contents: the `prevLesson` and
 * `nextLesson` queries of the `toc` service.
 *
 * The table is a sequence of modules, each an ordered sequence of lesson
 * names. Each loaded lesson carries a back-reference to its module. Here that
 * back-reference is the module's index in the table, kept in `owner`.
 */
module Navigation {

  /** `modules[m]` lists the lesson names of module `m` in order. `owner[n]` is
      the index of the module that lesson `n` was attached to at load time. */
  datatype Table = Table(modules: seq<seq<string>>, owner: map<string, int>)

  /** The lesson has a back-reference, and it points at a module of the table.
      Looking up a lesson without one fails in the service. */
  predicate Attached(t: Table, id: string) {
    id in t.owner && 0 <= t.owner[id] < |t.modules|
  }

  /** Every module lists at least one lesson. With an empty neighbour module
      the service would return `undefined`. */
  predicate NonEmptyModules(t: Table) {
    forall m :: 0 <= m < |t.modules| ==> |t.modules[m]| > 0
  }

  /** No lesson name is listed twice, in one module or across modules. */
  predicate Unique(mods: seq<seq<string>>) {
    forall j1, i1, j2, i2 ::
      (0 <= j1 < |mods| && 0 <= i1 < |mods[j1]| &&
       0 <= j2 < |mods| && 0 <= i2 < |mods[j2]| &&
       mods[j1][i1] == mods[j2][i2]) ==> j1 == j2 && i1 == i2
  }

  /** Every listed lesson points back at the module that lists it. */
  predicate BackRefs(t: Table) {
    forall j, i :: 0 <= j < |t.modules| && 0 <= i < |t.modules[j]| ==>
      t.modules[j][i] in t.owner && t.owner[t.modules[j][i]] == j
  }

  /** The state the load leaves behind, for a table of contents with
      non-empty modules and distinct lesson names. */
  predicate Consistent(t: Table) {
    NonEmptyModules(t) && Unique(t.modules) && BackRefs(t)
  }

  /** `Array.prototype.indexOf`: the first position of `x` in `s`, or -1. */
  function IndexOf(s: seq<string>, x: string): (r: int)
    ensures -1 <= r < |s|
    ensures r == -1 <==> x !in s
    ensures 0 <= r ==> s[r] == x && x !in s[..r]
  {
    if |s| == 0 then -1
    else if s[0] == x then 0
    else
      var k := IndexOf(s[1..], x);
      if k < 0 then -1
      else
        assert s[..k + 1] == [s[0]] + s[1..][..k];
        k + 1
  }

  /** `prevLesson(id)`: the lesson before `id`, or "" when there is none. */
  function PrevLesson(t: Table, id: string): string
    requires Attached(t, id) && NonEmptyModules(t)
  {
    var m := t.owner[id];
    var idx := IndexOf(t.modules[m], id);
    if idx < 0 then ""
    else if idx > 0 then t.modules[m][idx - 1]
    else if m <= 0 then ""
    else t.modules[m - 1][|t.modules[m - 1]| - 1]
  }

  /** `nextLesson(id)`: the lesson after `id`, or "" when there is none. */
  function NextLesson(t: Table, id: string): string
    requires Attached(t, id) && NonEmptyModules(t)
  {
    var m := t.owner[id];
    var idx := IndexOf(t.modules[m], id);
    if idx < 0 then ""
    else if idx + 1 < |t.modules[m]| then t.modules[m][idx + 1]
    else if |t.modules| <= m + 1 then ""
    else t.modules[m + 1][0]
  }

  /** The reading order of the whole tour: every module's lessons, module
      after module. */
  function Flat(mods: seq<seq<string>>): seq<string> {
    if |mods| == 0 then [] else Flat(mods[..|mods| - 1]) + mods[|mods| - 1]
  }

  lemma FlatStep(mods: seq<seq<string>>, m: nat)
    requires m < |mods|
    ensures Flat(mods[..m + 1]) == Flat(mods[..m]) + mods[m]
  {
    assert mods[..m + 1][..m] == mods[..m];
  }

  lemma {:induction false} FlatAppend(a: seq<seq<string>>, b: seq<seq<string>>)
    ensures Flat(a + b) == Flat(a) + Flat(b)
    decreases |b|
  {
    if |b| == 0 {
      assert a + b == a;
    } else {
      var b' := b[..|b| - 1];
      assert (a + b)[..|a + b| - 1] == a + b';
      FlatAppend(a, b');
    }
  }

  /** Lesson `i` of module `m` sits at position `|Flat(mods[..m])| + i` of the
      reading order. */
  lemma FlatAt(mods: seq<seq<string>>, m: nat, i: nat)
    requires m < |mods| && i < |mods[m]|
    ensures |Flat(mods[..m])| + i < |Flat(mods)|
    ensures Flat(mods)[|Flat(mods[..m])| + i] == mods[m][i]
  {
    FlatStep(mods, m);
    assert mods == mods[..m + 1] + mods[m + 1..];
    FlatAppend(mods[..m + 1], mods[m + 1..]);
  }

  /** Every position of the reading order belongs to one module and one
      position within it. */
  lemma {:induction false} Locate(mods: seq<seq<string>>, k: nat) returns (m: nat, i: nat)
    requires k < |Flat(mods)|
    ensures m < |mods| && i < |mods[m]|
    ensures k == |Flat(mods[..m])| + i
    decreases |mods|
  {
    var n := |mods|;
    var pre := mods[..n - 1];
    if k < |Flat(pre)| {
      m, i := Locate(pre, k);
      assert pre[..m] == mods[..m];
    } else {
      m, i := n - 1, k - |Flat(pre)|;
    }
  }

  lemma FlatWhole(mods: seq<seq<string>>)
    ensures |Flat(mods[..|mods|])| == |Flat(mods)|
    ensures Flat(mods[..0]) == []
  {
    assert mods[..|mods|] == mods;
  }

  /** In a consistent table the lesson at position `k` of the reading order is
      found at its own position by `indexOf`. */
  lemma Position(t: Table, k: nat) returns (m: nat, i: nat)
    requires Consistent(t) && k < |Flat(t.modules)|
    ensures m < |t.modules| && i < |t.modules[m]|
    ensures k == |Flat(t.modules[..m])| + i
    ensures Flat(t.modules)[k] == t.modules[m][i]
    ensures Attached(t, t.modules[m][i]) && t.owner[t.modules[m][i]] == m
    ensures IndexOf(t.modules[m], t.modules[m][i]) == i
  {
    m, i := Locate(t.modules, k);
    FlatAt(t.modules, m, i);
    var r := IndexOf(t.modules[m], t.modules[m][i]);
    assert t.modules[m][r] == t.modules[m][i];
  }

  /** `nextLesson` answers with the neighbour that follows in the reading
      order, and with "" at the end of the tour. */
  lemma NextFollowsOrder(t: Table, k: nat)
    requires Consistent(t) && k < |Flat(t.modules)|
    ensures Attached(t, Flat(t.modules)[k])
    ensures NextLesson(t, Flat(t.modules)[k]) ==
      if k + 1 < |Flat(t.modules)| then Flat(t.modules)[k + 1] else ""
  {
    var mods := t.modules;
    var m, i := Position(t, k);
    if i + 1 < |mods[m]| {
      assert NextLesson(t, mods[m][i]) == mods[m][i + 1];
      FlatAt(mods, m, i + 1);
    } else if m + 1 < |mods| {
      assert NextLesson(t, mods[m][i]) == mods[m + 1][0];
      FlatStep(mods, m);
      FlatAt(mods, m + 1, 0);
    } else {
      assert NextLesson(t, mods[m][i]) == "";
      FlatStep(mods, m);
      FlatWhole(mods);
    }
  }

  /** `prevLesson` answers with the neighbour that precedes in the reading
      order, and with "" at the start of the tour. */
  lemma PrevFollowsOrder(t: Table, k: nat)
    requires Consistent(t) && k < |Flat(t.modules)|
    ensures Attached(t, Flat(t.modules)[k])
    ensures PrevLesson(t, Flat(t.modules)[k]) ==
      if k > 0 then Flat(t.modules)[k - 1] else ""
  {
    var mods := t.modules;
    var m, i := Position(t, k);
    if i > 0 {
      FlatAt(mods, m, i - 1);
    } else if m == 0 {
      FlatWhole(mods);
    } else {
      FlatStep(mods, m - 1);
      FlatAt(mods, m - 1, |mods[m - 1]| - 1);
    }
  }

  /** The first lesson of the first module has no previous lesson. */
  lemma FirstHasNoPrev(t: Table)
    requires Consistent(t) && |t.modules| > 0
    ensures Attached(t, t.modules[0][0])
    ensures PrevLesson(t, t.modules[0][0]) == ""
  {
    FlatAt(t.modules, 0, 0);
    FlatWhole(t.modules);
    PrevFollowsOrder(t, 0);
  }

  /** The last lesson of the last module has no next lesson. */
  lemma LastHasNoNext(t: Table)
    requires Consistent(t) && |t.modules| > 0
    ensures Attached(t, t.modules[|t.modules| - 1][|t.modules[|t.modules| - 1]| - 1])
    ensures NextLesson(t, t.modules[|t.modules| - 1][|t.modules[|t.modules| - 1]| - 1]) == ""
  {
    var mods := t.modules;
    var m := |mods| - 1;
    FlatStep(mods, m);
    FlatWhole(mods);
    FlatAt(mods, m, |mods[m]| - 1);
    NextFollowsOrder(t, |Flat(mods)| - 1);
  }

  /** A lesson that is not listed in the module its back-reference names has
      neither neighbour. */
  lemma UnlistedHasNoNeighbours(t: Table, id: string)
    requires Attached(t, id) && NonEmptyModules(t)
    requires id !in t.modules[t.owner[id]]
    ensures PrevLesson(t, id) == "" && NextLesson(t, id) == ""
  {
  }

  /** A lesson with a neighbour is listed in its module. */
  lemma ListedWhenNeighbour(t: Table, id: string)
    requires Attached(t, id) && NonEmptyModules(t)
    requires NextLesson(t, id) != "" || PrevLesson(t, id) != ""
    ensures id in t.modules[t.owner[id]]
  {
  }

  /** Stepping forward and then back returns to the starting lesson. */
  lemma NextThenPrev(t: Table, id: string)
    requires Consistent(t) && Attached(t, id)
    requires NextLesson(t, id) != ""
    ensures Attached(t, NextLesson(t, id))
    ensures PrevLesson(t, NextLesson(t, id)) == id
  {
    var mods := t.modules;
    var m := t.owner[id];
    ListedWhenNeighbour(t, id);
    var i := IndexOf(mods[m], id);
    FlatAt(mods, m, i);
    var k := |Flat(mods[..m])| + i;
    assert Flat(mods)[k] == id;
    NextFollowsOrder(t, k);
    assert k + 1 < |Flat(mods)| && NextLesson(t, id) == Flat(mods)[k + 1];
    PrevFollowsOrder(t, k + 1);
  }

  /** Stepping back and then forward returns to the starting lesson. */
  lemma PrevThenNext(t: Table, id: string)
    requires Consistent(t) && Attached(t, id)
    requires PrevLesson(t, id) != ""
    ensures Attached(t, PrevLesson(t, id))
    ensures NextLesson(t, PrevLesson(t, id)) == id
  {
    var mods := t.modules;
    var m := t.owner[id];
    ListedWhenNeighbour(t, id);
    var i := IndexOf(mods[m], id);
    FlatAt(mods, m, i);
    var k := |Flat(mods[..m])| + i;
    assert Flat(mods)[k] == id;
    PrevFollowsOrder(t, k);
    assert k > 0 && PrevLesson(t, id) == Flat(mods)[k - 1];
    NextFollowsOrder(t, k - 1);
  }

  /** Going forward, back and forward again lands where the first step did. */
  lemma NextPrevNext(t: Table, id: string)
    requires Consistent(t) && Attached(t, id)
    requires NextLesson(t, id) != ""
    ensures Attached(t, NextLesson(t, id)) && Attached(t, PrevLesson(t, NextLesson(t, id)))
    ensures NextLesson(t, PrevLesson(t, NextLesson(t, id))) == NextLesson(t, id)
  {
    NextThenPrev(t, id);
  }
}
