/** The schema the decoder is driven by (ElementsList and its column entries,
    already parsed from their configuration document), and the version filter
    `Where(x => x.Version <= version)` the decoder applies to lists and to
    columns. */
module Schema {

  /** The column type tag `Type` with its parameters. `Str` carries
      `int.Parse(SizeString)` and the `Encoding` name; any other tag string is
      kept as `Unknown`. */
  datatype TypeTag = Int | Float | Str(size: int, encoding: string) | Unknown(tag: string)

  /** One column of a list: name, minimum file version, type. */
  datatype ElementsType = ElementsType(name: string, version: int, tag: TypeTag)

  /** The `Skip` attribute of a list: the literal "0" (no skip region),
      "AUTO", "RAW", or any other integer literal, parsed (so "00" is
      `Fixed(0)`, not `NoSkip`). */
  datatype SkipPolicy = NoSkip | Fixed(n: int) | Auto | Raw

  /** One list of the schema: name, minimum file version, skip policy, columns. */
  datatype ElementsList = ElementsList(name: string, version: int, skip: SkipPolicy, types: seq<ElementsType>)

  /** LINQ's `Where(pred).ToList()`: the elements satisfying `keep`, in order. */
  function Where<T(!new)>(xs: seq<T>, keep: T -> bool): (r: seq<T>)
    ensures |r| <= |xs|
  {
    if |xs| == 0 then []
    else Where(xs[..|xs| - 1], keep) + (if keep(xs[|xs| - 1]) then [xs[|xs| - 1]] else [])
  }

  /** `Where` keeps exactly the elements of `xs` that satisfy `keep`. */
  lemma {:induction false} WhereMembers<T(!new)>(xs: seq<T>, keep: T -> bool)
    ensures forall x :: x in Where(xs, keep) <==> x in xs && keep(x)
  {
    if |xs| > 0 {
      var init := xs[..|xs| - 1];
      WhereMembers(init, keep);
      assert xs == init + [xs[|xs| - 1]];
    }
  }

  /** The indices of the elements `Where` keeps, in increasing order. */
  function KeptIndices<T>(xs: seq<T>, keep: T -> bool): (idx: seq<nat>)
    ensures forall k :: 0 <= k < |idx| ==> idx[k] < |xs| && keep(xs[idx[k]])
    ensures forall k, m :: 0 <= k < m < |idx| ==> idx[k] < idx[m]
    ensures forall i :: 0 <= i < |xs| && keep(xs[i]) ==> i in idx
  {
    if |xs| == 0 then []
    else KeptIndices(xs[..|xs| - 1], keep) + (if keep(xs[|xs| - 1]) then [|xs| - 1] else [])
  }

  /** `Where` keeps exactly the satisfying elements, in their original order:
      element k of the result is the element of `xs` at the k-th kept index. */
  lemma {:induction false} WhereIsOrderedSelection<T(!new)>(xs: seq<T>, keep: T -> bool)
    ensures |Where(xs, keep)| == |KeptIndices(xs, keep)|
    ensures forall k :: 0 <= k < |Where(xs, keep)| ==> Where(xs, keep)[k] == xs[KeptIndices(xs, keep)[k]]
  {
    if |xs| > 0 {
      var init := xs[..|xs| - 1];
      WhereIsOrderedSelection(init, keep);
      forall k | 0 <= k < |KeptIndices(init, keep)|
        ensures init[KeptIndices(init, keep)[k]] == xs[KeptIndices(init, keep)[k]]
      {
      }
    }
  }

  /** Filtering twice with one predicate is filtering once. */
  lemma {:induction false} WhereIdempotent<T(!new)>(xs: seq<T>, keep: T -> bool)
    ensures Where(Where(xs, keep), keep) == Where(xs, keep)
  {
    if |xs| > 0 {
      var init := xs[..|xs| - 1];
      var last := xs[|xs| - 1];
      WhereIdempotent(init, keep);
      var w := Where(init, keep);
      if keep(last) {
        assert (w + [last])[..|w + [last]| - 1] == w;
      } else {
        assert w + [] == w;
      }
    }
  }

  /** Filtering the result of a filter keeps what both predicates keep. */
  lemma {:induction false} WhereWhere<T(!new)>(xs: seq<T>, p: T -> bool, q: T -> bool, both: T -> bool)
    requires forall x :: x in xs ==> (both(x) <==> p(x) && q(x))
    ensures Where(Where(xs, p), q) == Where(xs, both)
  {
    if |xs| > 0 {
      var init := xs[..|xs| - 1];
      var last := xs[|xs| - 1];
      assert forall x :: x in init ==> x in xs;
      WhereWhere(init, p, q, both);
      var w := Where(init, p);
      if p(last) {
        assert (w + [last])[..|w + [last]| - 1] == w;
      } else {
        assert w + [] == w;
      }
    }
  }

  /** The columns present in files of the given version (ElementsReader.cs:86). */
  function ActiveTypes(types: seq<ElementsType>, version: int): (r: seq<ElementsType>)
    ensures |r| <= |types|
  {
    Where(types, (t: ElementsType) => t.version <= version)
  }

  /** A column is active exactly when it is in the schema and its version
      is at most the file's. */
  lemma ActiveTypesMembers(types: seq<ElementsType>, version: int)
    ensures forall t :: t in ActiveTypes(types, version) <==> t in types && t.version <= version
  {
    WhereMembers(types, (t: ElementsType) => t.version <= version);
  }

  /** The lists present in files of the given version (ElementsReader.cs:69). */
  function ActiveLists(lists: seq<ElementsList>, version: int): (r: seq<ElementsList>)
    ensures |r| <= |lists|
  {
    Where(lists, (l: ElementsList) => l.version <= version)
  }

  /** A list is read exactly when it is in the configuration and its
      version is at most the file's. */
  lemma ActiveListsMembers(lists: seq<ElementsList>, version: int)
    ensures forall l :: l in ActiveLists(lists, version) <==> l in lists && l.version <= version
  {
    WhereMembers(lists, (l: ElementsList) => l.version <= version);
  }

  /** The active lists are exactly the lists with `Version <= version`, in
      schema order: the k-th active list is the list at the k-th index whose
      version qualifies, and every qualifying index is used. */
  lemma ActiveListsInOrder(lists: seq<ElementsList>, version: int)
    ensures var idx := KeptIndices(lists, (l: ElementsList) => l.version <= version);
      && |ActiveLists(lists, version)| == |idx|
      && (forall k :: 0 <= k < |idx| ==> ActiveLists(lists, version)[k] == lists[idx[k]])
      && (forall k, m :: 0 <= k < m < |idx| ==> idx[k] < idx[m])
      && (forall i :: 0 <= i < |lists| ==> (i in idx <==> lists[i].version <= version))
  {
    WhereIsOrderedSelection(lists, (l: ElementsList) => l.version <= version);
  }

  /** Reapplying the column filter of ElementsReader.cs:86 with the same
      version changes nothing, so a list whose `Types` were already filtered
      in place decodes the same columns again. */
  lemma ActiveTypesIdempotent(types: seq<ElementsType>, version: int)
    ensures ActiveTypes(ActiveTypes(types, version), version) == ActiveTypes(types, version)
  {
    WhereIdempotent(types, (t: ElementsType) => t.version <= version);
  }

  /** Because the filter at ElementsReader.cs:86 overwrites `list.Types`, a
      later decode with version `v2` sees the columns of `min(v1, v2)`. */
  lemma ActiveTypesReapplied(types: seq<ElementsType>, v1: int, v2: int)
    ensures ActiveTypes(ActiveTypes(types, v1), v2) == ActiveTypes(types, if v1 < v2 then v1 else v2)
  {
    var m := if v1 < v2 then v1 else v2;
    WhereWhere(types, (t: ElementsType) => t.version <= v1, (t: ElementsType) => t.version <= v2,
               (t: ElementsType) => t.version <= m);
  }
}
