/**
 * The layer partitioner of the result page: a flat mapping from layer name to
 * layer data, in `Object.entries` order, is cut into the "main" layers (names
 * without a '.') and, per parent name, the child layers whose name contains a
 * '.', keyed by the text before the first '.'.
 *
 * The layer data is opaque here: a type parameter `D`.
 */
module Layers {

  /** One `[name, data]` pair of `Object.entries(visualization)`. */
  type Entry<D> = (string, D)

  predicate HasDot(name: string) {
    '.' in name
  }

  /** Object keys are distinct, so the entries have distinct names. */
  ghost predicate DistinctNames<D>(entries: seq<Entry<D>>) {
    forall i, j :: 0 <= i < j < |entries| ==> entries[i].0 != entries[j].0
  }

  /** Glues the pieces back together with '.' between them. */
  function JoinWithDot(parts: seq<string>): string
    requires |parts| >= 1
  {
    if |parts| == 1 then parts[0] else parts[0] + "." + JoinWithDot(parts[1..])
  }

  /**
   * `name.split(".")`: the pieces between the dots, in order. An empty name,
   * a leading, trailing or doubled '.' give empty pieces, as in JavaScript.
   * There is always at least one piece.
   */
  function SplitOnDot(name: string): (parts: seq<string>)
    ensures |parts| >= 1
    ensures forall k :: 0 <= k < |parts| ==> '.' !in parts[k]
    ensures JoinWithDot(parts) == name
  {
    if name == [] then [""]
    else
      var rest := SplitOnDot(name[1..]);
      if name[0] == '.' then
        assert name == "." + JoinWithDot(rest);
        [""] + rest
      else
        var parts := [[name[0]] + rest[0]] + rest[1..];
        assert parts[1..] == rest[1..];
        assert name == [name[0]] + JoinWithDot(rest);
        parts
  }

  /** Splitting undoes joining, for dot-free pieces. */
  lemma {:induction false} SplitJoin(parts: seq<string>)
    requires |parts| >= 1
    requires forall k :: 0 <= k < |parts| ==> '.' !in parts[k]
    ensures SplitOnDot(JoinWithDot(parts)) == parts
  {
    if |parts| == 1 {
      SplitUndotted(parts[0]);
    } else {
      SplitJoin(parts[1..]);
      SplitDotFreePrefix(parts[0], JoinWithDot(parts[1..]));
      assert [parts[0]] + parts[1..] == parts;
    }
  }

  /** A name without a '.' splits into itself alone. */
  lemma {:induction false} SplitUndotted(name: string)
    requires !HasDot(name)
    ensures SplitOnDot(name) == [name]
  {
    if name != [] {
      SplitUndotted(name[1..]);
      assert [name[0]] + name[1..] == name;
    }
  }

  /** A dot-free head followed by '.' becomes the first piece of the split. */
  lemma {:induction false} SplitDotFreePrefix(head: string, tail: string)
    requires !HasDot(head)
    ensures SplitOnDot(head + "." + tail) == [head] + SplitOnDot(tail)
  {
    var s := head + "." + tail;
    if head == [] {
      assert s[1..] == tail;
    } else {
      assert s[1..] == head[1..] + "." + tail;
      SplitDotFreePrefix(head[1..], tail);
      assert [head[0]] + head[1..] == head;
    }
  }

  /** `const [parent] = name.split(".")`: the first piece. */
  function Parent(name: string): string {
    SplitOnDot(name)[0]
  }

  /**
   * The parent of a name with a '.' is exactly the text before its first
   * '.': it is dot-free, and the name continues with '.' right after it.
   */
  lemma ParentIsTextBeforeFirstDot(name: string)
    requires HasDot(name)
    ensures '.' !in Parent(name)
    ensures |Parent(name)| < |name| && name[|Parent(name)|] == '.'
    ensures name[..|Parent(name)|] == Parent(name)
  {
    var parts := SplitOnDot(name);
    assert name == parts[0] + "." + JoinWithDot(parts[1..]);
  }

  /** A name that starts with '.' is grouped under the empty parent. */
  lemma LeadingDotHasEmptyParent(name: string)
    requires |name| > 0 && name[0] == '.'
    ensures Parent(name) == ""
  {
    ParentIsTextBeforeFirstDot(name);
  }

  /** Which output of the partitioner an entry goes to. */
  datatype Selector = MainLayer | ChildOf(parent: string)

  predicate Selects(sel: Selector, name: string) {
    match sel
    case MainLayer => !HasDot(name)
    case ChildOf(p) => HasDot(name) && Parent(name) == p
  }

  /** The entries that `sel` selects, in input order. */
  function Pick<D>(entries: seq<Entry<D>>, sel: Selector): seq<Entry<D>> {
    if entries == [] then []
    else
      var last := entries[|entries| - 1];
      Pick(entries[..|entries| - 1], sel) + (if Selects(sel, last.0) then [last] else [])
  }

  /** The parents of the dotted names among the entries. */
  function ParentsOf<D>(entries: seq<Entry<D>>): set<string> {
    if entries == [] then {}
    else
      var last := entries[|entries| - 1];
      ParentsOf(entries[..|entries| - 1]) + (if HasDot(last.0) then {Parent(last.0)} else {})
  }

  /** `main` and `internals` hold what the partitioner makes of `seen`. */
  ghost predicate SplitOf<D>(seen: seq<Entry<D>>, main: seq<Entry<D>>, internals: map<string, seq<Entry<D>>>) {
    && main == Pick(seen, MainLayer)
    && internals.Keys == ParentsOf(seen)
    && forall p :: p in internals ==> internals[p] == Pick(seen, ChildOf(p))
  }

  /**
   * `splitLayers`. The loop visits the entries in order; a main layer is
   * pushed to `main`, a child layer to `internals[parent]`, which is created
   * empty just before its first push.
   */
  method SplitLayers<D>(visualization: seq<Entry<D>>)
    returns (main: seq<Entry<D>>, internals: map<string, seq<Entry<D>>>)
    ensures main == Pick(visualization, MainLayer)
    ensures internals.Keys == ParentsOf(visualization)
    ensures forall p :: p in internals ==> internals[p] == Pick(visualization, ChildOf(p))
  {
    main := [];
    internals := map[];
    ghost var seen := [];
    for k := 0 to |visualization|
      invariant seen == visualization[..k]
      invariant SplitOf(seen, main, internals)
    {
      var (name, data) := visualization[k];
      if !HasDot(name) {
        MainStep(seen, main, internals, (name, data));
        main := main + [(name, data)];
      } else {
        // `split` never yields an empty list, so the `parent === undefined`
        // skip cannot fire: the first piece always exists.
        var parts := SplitOnDot(name);
        var parent := parts[0];
        // `if (!internals[parent]) internals[parent] = []`, then the push
        var group := if parent in internals then internals[parent] else [];
        ChildStep(seen, main, internals, (name, data));
        internals := internals[parent := group + [(name, data)]];
      }
      seen := seen + [(name, data)];
    }
    assert visualization[..|visualization|] == visualization;
  }

  /** A main layer is appended to `main` and changes nothing else. */
  lemma MainStep<D>(seen: seq<Entry<D>>, main: seq<Entry<D>>, internals: map<string, seq<Entry<D>>>, e: Entry<D>)
    requires SplitOf(seen, main, internals)
    requires !HasDot(e.0)
    ensures SplitOf(seen + [e], main + [e], internals)
  {
    PickStep(seen, e);
  }

  /** A child layer is appended to the group of its parent, created empty if missing. */
  lemma ChildStep<D>(seen: seq<Entry<D>>, main: seq<Entry<D>>, internals: map<string, seq<Entry<D>>>, e: Entry<D>)
    requires SplitOf(seen, main, internals)
    requires HasDot(e.0)
    ensures var parent := Parent(e.0);
      var group := if parent in internals then internals[parent] else [];
      SplitOf(seen + [e], main, internals[parent := group + [e]])
  {
    PickStep(seen, e);
    GroupExistsIffParent(seen, Parent(e.0));
  }

  /** What one more entry adds to each output. */
  lemma PickStep<D>(entries: seq<Entry<D>>, e: Entry<D>)
    ensures Pick(entries + [e], MainLayer) == Pick(entries, MainLayer) + (if HasDot(e.0) then [] else [e])
    ensures ParentsOf(entries + [e]) == ParentsOf(entries) + (if HasDot(e.0) then {Parent(e.0)} else {})
    ensures forall p ::
      Pick(entries + [e], ChildOf(p)) == Pick(entries, ChildOf(p)) + (if HasDot(e.0) && Parent(e.0) == p then [e] else [])
  {
    assert (entries + [e])[..|entries|] == entries;
  }

  /** A group is non-empty exactly when some dotted name has that parent. */
  lemma {:induction false} GroupExistsIffParent<D>(entries: seq<Entry<D>>, p: string)
    ensures p in ParentsOf(entries) <==> Pick(entries, ChildOf(p)) != []
  {
    if entries != [] {
      GroupExistsIffParent(entries[..|entries| - 1], p);
    }
  }

  /** Every group the partitioner creates is non-empty. */
  lemma GroupsAreNonEmpty<D>(entries: seq<Entry<D>>)
    ensures forall p :: p in ParentsOf(entries) ==> Pick(entries, ChildOf(p)) != []
  {
    forall p | p in ParentsOf(entries) ensures Pick(entries, ChildOf(p)) != [] {
      GroupExistsIffParent(entries, p);
    }
  }

  /** Picking distributes over concatenation: order is kept. */
  lemma {:induction false} PickAppend<D>(a: seq<Entry<D>>, b: seq<Entry<D>>, sel: Selector)
    ensures Pick(a + b, sel) == Pick(a, sel) + Pick(b, sel)
  {
    if b == [] {
      assert a + b == a;
    } else {
      var init, last := b[..|b| - 1], b[|b| - 1];
      assert a + b == (a + init) + [last];
      assert (a + b)[..|a + b| - 1] == a + init;
      PickAppend(a, init, sel);
    }
  }

  /** How often an entry is picked: as often as it occurs, if selected. */
  lemma {:induction false} PickCount<D>(entries: seq<Entry<D>>, sel: Selector, e: Entry<D>)
    ensures multiset(Pick(entries, sel))[e] == if Selects(sel, e.0) then multiset(entries)[e] else 0
  {
    if entries != [] {
      var init := entries[..|entries| - 1];
      PickCount(init, sel, e);
      assert entries == init + [entries[|entries| - 1]];
    }
  }

  /** Only selected entries of the input are picked. */
  lemma {:induction false} PickedAreSelected<D>(entries: seq<Entry<D>>, sel: Selector, j: nat)
    requires j < |Pick(entries, sel)|
    ensures Pick(entries, sel)[j] in entries
    ensures Selects(sel, Pick(entries, sel)[j].0)
  {
    var init, last := entries[..|entries| - 1], entries[|entries| - 1];
    if j < |Pick(init, sel)| {
      PickedAreSelected(init, sel, j);
      assert Pick(entries, sel)[j] == Pick(init, sel)[j];
    }
  }

  /**
   * The outputs partition the input: every entry is counted in `main` as
   * often as it occurs in the input if its name has no '.', otherwise in the
   * group of its parent, and it is in no other output.
   */
  lemma Partition<D>(entries: seq<Entry<D>>, e: Entry<D>)
    ensures !HasDot(e.0) ==> multiset(Pick(entries, MainLayer))[e] == multiset(entries)[e]
    ensures HasDot(e.0) ==> multiset(Pick(entries, MainLayer))[e] == 0
    ensures HasDot(e.0) ==> multiset(Pick(entries, ChildOf(Parent(e.0))))[e] == multiset(entries)[e]
    ensures forall p :: p != Parent(e.0) || !HasDot(e.0) ==> multiset(Pick(entries, ChildOf(p)))[e] == 0
  {
    PickCount(entries, MainLayer, e);
    PickCount(entries, ChildOf(Parent(e.0)), e);
    forall p | p != Parent(e.0) || !HasDot(e.0)
      ensures multiset(Pick(entries, ChildOf(p)))[e] == 0
    {
      PickCount(entries, ChildOf(p), e);
    }
  }

  /** With distinct names every entry occurs exactly once in the input. */
  lemma {:induction false} DistinctOccursOnce<D>(entries: seq<Entry<D>>, k: nat)
    requires DistinctNames(entries)
    requires k < |entries|
    ensures multiset(entries)[entries[k]] == 1
  {
    var init := entries[..|entries| - 1];
    var last := entries[|entries| - 1];
    assert entries == init + [last];
    if k == |entries| - 1 {
      assert last !in init;
    } else {
      DistinctOccursOnce(init, k);
      assert init[k] == entries[k];
    }
  }

  /**
   * Every entry lands exactly once where it belongs: a name without '.' in
   * `main`, a dotted name in the group of the text before its first '.'.
   */
  lemma ExactlyOnce<D>(entries: seq<Entry<D>>, k: nat)
    requires DistinctNames(entries)
    requires k < |entries|
    ensures !HasDot(entries[k].0) ==> multiset(Pick(entries, MainLayer))[entries[k]] == 1
    ensures HasDot(entries[k].0) ==> multiset(Pick(entries, ChildOf(Parent(entries[k].0))))[entries[k]] == 1
    ensures HasDot(entries[k].0) ==> Parent(entries[k].0) in ParentsOf(entries)
  {
    DistinctOccursOnce(entries, k);
    Partition(entries, entries[k]);
    if HasDot(entries[k].0) {
      GroupExistsIffParent(entries, Parent(entries[k].0));
    }
  }

  /**
   * Input order is kept: a selected entry at input index `k` sits in the
   * output at the number of selected entries before it.
   */
  lemma PickPosition<D>(entries: seq<Entry<D>>, sel: Selector, k: nat)
    requires k < |entries| && Selects(sel, entries[k].0)
    ensures |Pick(entries[..k], sel)| < |Pick(entries, sel)|
    ensures Pick(entries, sel)[|Pick(entries[..k], sel)|] == entries[k]
  {
    assert entries == entries[..k] + ([entries[k]] + entries[k + 1..]);
    PickAppend(entries[..k], [entries[k]] + entries[k + 1..], sel);
    PickAppend([entries[k]], entries[k + 1..], sel);
    assert Pick([entries[k]], sel) == [entries[k]] by {
      assert [entries[k]][..0] == [];
    }
  }

  /** Two selected entries keep their relative order in the output. */
  lemma KeepsInputOrder<D>(entries: seq<Entry<D>>, sel: Selector, i: nat, j: nat)
    requires i < j < |entries|
    requires Selects(sel, entries[i].0) && Selects(sel, entries[j].0)
    ensures |Pick(entries[..i], sel)| < |Pick(entries[..j], sel)| < |Pick(entries, sel)|
    ensures Pick(entries, sel)[|Pick(entries[..i], sel)|] == entries[i]
    ensures Pick(entries, sel)[|Pick(entries[..j], sel)|] == entries[j]
  {
    PickPosition(entries, sel, i);
    PickPosition(entries, sel, j);
    var prefix := entries[..j];
    PickPosition(prefix, sel, i);
    assert prefix[..i] == entries[..i];
  }

  /** Every child in the group of `p` has a name starting with `p + "."`. */
  lemma ChildrenStartWithParent<D>(entries: seq<Entry<D>>, p: string, j: nat)
    requires j < |Pick(entries, ChildOf(p))|
    ensures var name := Pick(entries, ChildOf(p))[j].0;
      |p| + 1 <= |name| && name[..|p| + 1] == p + "."
  {
    var name := Pick(entries, ChildOf(p))[j].0;
    PickedAreSelected(entries, ChildOf(p), j);
    ParentIsTextBeforeFirstDot(name);
    assert name[..|p| + 1] == name[..|p|] + [name[|p|]];
  }

  /**
   * Two main layers with a child of the first between them: the children
   * are grouped under the first, and the main layers keep their order.
   */
  lemma MainChildMain<D>(m1: string, child: string, m2: string, a: D, b: D, c: D)
    requires !HasDot(m1) && !HasDot(m2)
    requires HasDot(child) && Parent(child) == m1
    ensures var vis := [(m1, a), (child, b), (m2, c)];
      && Pick(vis, MainLayer) == [(m1, a), (m2, c)]
      && ParentsOf(vis) == {m1}
      && Pick(vis, ChildOf(m1)) == [(child, b)]
  {
    var vis := [(m1, a), (child, b), (m2, c)];
    var v1, v2 := vis[..1], vis[..2];
    assert v1[..0] == [] && v2[..1] == v1 && vis[..2] == v2;
    assert vis[..|vis| - 1] == v2 && v2[..|v2| - 1] == v1;
    assert Pick(v1, MainLayer) == [(m1, a)];
    assert Pick(v2, MainLayer) == [(m1, a)];
    assert Pick(v1, ChildOf(m1)) == [];
    assert Pick(v2, ChildOf(m1)) == [(child, b)];
    assert ParentsOf(v1) == {};
    assert ParentsOf(v2) == {m1};
  }

  /** The names of the worked example below. */
  lemma ConvNames()
    ensures !HasDot("conv1") && !HasDot("conv2")
    ensures HasDot("conv1.relu") && Parent("conv1.relu") == "conv1"
  {
    assert !HasDot("conv1") && !HasDot("relu") && !HasDot("conv2");
    assert "conv1.relu"[5] == '.';
    assert "conv1" + "." + "relu" == "conv1.relu";
    SplitDotFreePrefix("conv1", "relu");
  }

  /**
   * The worked example: `{"conv1": A, "conv1.relu": B, "conv2": C}` gives
   * main = [conv1, conv2] and internals = {"conv1": [conv1.relu]}.
   */
  lemma ConvExample<D>(a: D, b: D, c: D)
    ensures var vis := [("conv1", a), ("conv1.relu", b), ("conv2", c)];
      && Pick(vis, MainLayer) == [("conv1", a), ("conv2", c)]
      && ParentsOf(vis) == {"conv1"}
      && Pick(vis, ChildOf("conv1")) == [("conv1.relu", b)]
  {
    ConvNames();
    MainChildMain("conv1", "conv1.relu", "conv2", a, b, c);
  }
}
