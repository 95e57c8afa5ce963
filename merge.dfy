/** The section-keyed configuration and the merge policy that folds each parsed line into it.
    The merge lives in a file that is not part of this model; it is defined here from the
    policy the tests state (src/__tests__/index.test.ts:101-127): a list-valued option
    collects every assignment in order, any other option keeps its first value. */
module Merge {
  import opened Results
  import opened Options
  import opened Values

  /** Option name to value, within one section. */
  type Entries = map<string, Value>

  /** A parsed configuration: section to its entries. */
  type Config = map<Section, Entries>

  function Get(e: Entries, name: string): Option<Value>
  {
    if name in e then Some(e[name]) else None
  }

  /** The value of `name` in `section`, if any. */
  function Lookup(c: Config, section: Section, name: string): Option<Value>
  {
    if section in c then Get(c[section], name) else None
  }

  /** Every value is that of a catalog option, and of the option's declared type. */
  ghost predicate WellTyped(catalog: Catalog, c: Config)
  {
    forall s, name :: Lookup(c, s, name).Some? ==>
      name in catalog && HasType(Lookup(c, s, name).value, catalog[name].typeName)
  }

  /** The policy for one (section, option) pair: what is absent on one side is taken from
      the other; two lists concatenate, earlier first; otherwise the earlier value stays. */
  function MergeValues(earlier: Option<Value>, later: Option<Value>): (r: Option<Value>)
    ensures r.None? <==> earlier.None? && later.None?
    ensures earlier.None? ==> r == later
    ensures later.None? ==> r == earlier
    ensures earlier.Some? && !earlier.value.Strs? ==> r == earlier
    ensures earlier.Some? && later.Some? && earlier.value.Strs? && later.value.Strs?
            ==> r == Some(Strs(earlier.value.ss + later.value.ss))
  {
    match (earlier, later)
    case (None, _) => later
    case (Some(_), None) => earlier
    case (Some(Strs(xs)), Some(Strs(ys))) => Some(Strs(xs + ys))
    case (Some(_), Some(_)) => earlier
  }

  function MergeEntries(a: Entries, b: Entries): (r: Entries)
    ensures forall name :: Get(r, name) == MergeValues(Get(a, name), Get(b, name))
  {
    map name | name in a.Keys + b.Keys :: MergeValues(Get(a, name), Get(b, name)).value
  }

  /** `mergeBitcoinConfigs(a, b)`: the sections of both, each (section, option) pair
      merged by the policy above. */
  function MergeConfigs(a: Config, b: Config): (r: Config)
    ensures r.Keys == a.Keys + b.Keys
    ensures forall s, name :: Lookup(r, s, name) == MergeValues(Lookup(a, s, name), Lookup(b, s, name))
  {
    var r := map s | s in a.Keys + b.Keys ::
      if s in a && s in b then MergeEntries(a[s], b[s]) else if s in a then a[s] else b[s];
    assert forall s, name :: Lookup(r, s, name) == MergeValues(Lookup(a, s, name), Lookup(b, s, name)) by {
      forall s, name ensures Lookup(r, s, name) == MergeValues(Lookup(a, s, name), Lookup(b, s, name)) {
        if s in a && s in b {
          assert Get(r[s], name) == MergeValues(Get(a[s], name), Get(b[s], name));
        }
      }
    }
    r
  }

  /** Merging keeps a configuration well typed. */
  lemma {:induction false} MergePreservesWellTyped(catalog: Catalog, a: Config, b: Config)
    requires WellTyped(catalog, a) && WellTyped(catalog, b)
    ensures WellTyped(catalog, MergeConfigs(a, b))
  {
    var r := MergeConfigs(a, b);
    forall s, name | Lookup(r, s, name).Some?
      ensures name in catalog && HasType(Lookup(r, s, name).value, catalog[name].typeName)
    {
      assert Lookup(r, s, name) == MergeValues(Lookup(a, s, name), Lookup(b, s, name));
      if Lookup(a, s, name).Some? && Lookup(b, s, name).Some?
         && Lookup(a, s, name).value.Strs? && Lookup(b, s, name).value.Strs? {
        assert HasType(Lookup(a, s, name).value, catalog[name].typeName);
      }
    }
  }

  /** The accumulator after folding the fragments in order, starting from `{}`. */
  function MergeAll(fragments: seq<Config>): Config
  {
    if fragments == [] then map[]
    else MergeConfigs(MergeAll(fragments[..|fragments| - 1]), fragments[|fragments| - 1])
  }

  lemma MergeAllSnoc(fragments: seq<Config>, f: Config)
    ensures MergeAll(fragments + [f]) == MergeConfigs(MergeAll(fragments), f)
  {
    assert (fragments + [f])[..|fragments|] == fragments;
  }

  /** The values the fragments give to (section, name), in fragment order. */
  function Occurrences(fragments: seq<Config>, section: Section, name: string): seq<Value>
  {
    if fragments == [] then []
    else
      var last := Lookup(fragments[|fragments| - 1], section, name);
      Occurrences(fragments[..|fragments| - 1], section, name) + (if last.Some? then [last.value] else [])
  }

  /** The policy applied to a run of values, earliest first. */
  function Combine(vs: seq<Value>): Option<Value>
  {
    if vs == [] then None else MergeValues(Combine(vs[..|vs| - 1]), Some(vs[|vs| - 1]))
  }

  /** Folding fragments one at a time gives, for each (section, name), the policy applied to
      the values the fragments assign it, in order. */
  lemma {:induction false} MergeAllCollects(fragments: seq<Config>, section: Section, name: string)
    ensures Lookup(MergeAll(fragments), section, name) == Combine(Occurrences(fragments, section, name))
  {
    if fragments != [] {
      var init := fragments[..|fragments| - 1];
      var last := Lookup(fragments[|fragments| - 1], section, name);
      MergeAllCollects(init, section, name);
      var vs := Occurrences(init, section, name);
      if last.Some? {
        var ws := vs + [last.value];
        assert ws[..|ws| - 1] == vs;
      } else {
        assert Occurrences(fragments, section, name) == vs;
      }
    }
  }

  /** A scalar first value survives every later value. */
  lemma {:induction false} CombineFirstWins(vs: seq<Value>)
    requires vs != [] && !vs[0].Strs?
    ensures Combine(vs) == Some(vs[0])
  {
    if |vs| > 1 {
      CombineFirstWins(vs[..|vs| - 1]);
    }
  }

  predicate AllLists(vs: seq<Value>)
  {
    forall i :: 0 <= i < |vs| ==> vs[i].Strs?
  }

  /** The elements of a run of lists, in order. */
  function Flatten(vs: seq<Value>): seq<string>
    requires AllLists(vs)
  {
    if vs == [] then [] else Flatten(vs[..|vs| - 1]) + vs[|vs| - 1].ss
  }

  /** Lists append: the result holds every element of every list, in order. */
  lemma {:induction false} CombineAppends(vs: seq<Value>)
    requires vs != [] && AllLists(vs)
    ensures Combine(vs) == Some(Strs(Flatten(vs)))
  {
    var init := vs[..|vs| - 1];
    assert vs[|vs| - 1] == Strs(vs[|vs| - 1].ss);
    if |vs| > 1 {
      CombineAppends(init);
    } else {
      assert init == [];
      assert Combine(init) == None && Flatten(init) == [];
      assert Combine(vs) == MergeValues(Combine(init), Some(vs[0])) == Some(vs[0]);
      assert Flatten(vs) == Flatten(init) + vs[0].ss == vs[0].ss;
    }
  }

  /** One-element lists flatten to exactly one element per list, in order. */
  lemma {:induction false} FlattenSingletons(vs: seq<Value>)
    requires forall i :: 0 <= i < |vs| ==> vs[i].Strs? && |vs[i].ss| == 1
    ensures AllLists(vs)
    ensures |Flatten(vs)| == |vs|
    ensures forall i :: 0 <= i < |vs| ==> Flatten(vs)[i] == vs[i].ss[0]
  {
    if vs != [] {
      FlattenSingletons(vs[..|vs| - 1]);
    }
  }

  /** In well-typed fragments, every value given to a catalog option has its declared type. */
  lemma {:induction false} OccurrencesTyped(catalog: Catalog, fragments: seq<Config>, section: Section, name: string)
    requires forall k :: 0 <= k < |fragments| ==> WellTyped(catalog, fragments[k])
    ensures forall v :: v in Occurrences(fragments, section, name) ==>
              name in catalog && HasType(v, catalog[name].typeName)
  {
    if fragments != [] {
      var init := fragments[..|fragments| - 1];
      OccurrencesTyped(catalog, init, section, name);
      var last := fragments[|fragments| - 1];
      assert WellTyped(catalog, last);
      var us := Occurrences(init, section, name);
      var vs := Occurrences(fragments, section, name);
      var tail := Lookup(last, section, name);
      assert vs == us + (if tail.Some? then [tail.value] else []);
      if tail.Some? {
        assert name in catalog && HasType(tail.value, catalog[name].typeName);
      }
    }
  }

  /** The fold of well-typed fragments is well typed. */
  lemma {:induction false} MergeAllWellTyped(catalog: Catalog, fragments: seq<Config>)
    requires forall k :: 0 <= k < |fragments| ==> WellTyped(catalog, fragments[k])
    ensures WellTyped(catalog, MergeAll(fragments))
  {
    if fragments != [] {
      MergeAllWellTyped(catalog, fragments[..|fragments| - 1]);
      MergePreservesWellTyped(catalog, MergeAll(fragments[..|fragments| - 1]), fragments[|fragments| - 1]);
    }
  }
}
