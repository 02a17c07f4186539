/** Merging the user's YAML configuration over the built-in example, and the legacy listener key. */
module ConfigMerge {
  import opened Basics

  /** A YAML value; mappings compare without regard to the order of their entries. */
  datatype Value =
    | Null
    | Bool(flag: bool)
    | Number(number: int)
    | Str(text: string)
    | Sequence(items: seq<Value>)
    | Mapping(entries: map<Value, Value>)

  type KeyPath = seq<Value>

  /** `deep_merge`. */
  function DeepMerge(base: Value, overlay: Value): Value
    decreases overlay
  {
    if base.Mapping? && overlay.Mapping? then
      Mapping(map k | k in base.entries.Keys + overlay.entries.Keys ::
                if k !in overlay.entries then base.entries[k]
                else if k in base.entries then DeepMerge(base.entries[k], overlay.entries[k])
                else overlay.entries[k])
    else overlay
  }

  /** The source's loop: each overlay entry is taken out of the base, merged and put back. */
  method DeepMergeInPlace(base: Value, overlay: Value) returns (r: Value)
    ensures r == DeepMerge(base, overlay)
    decreases overlay
  {
    if !base.Mapping? || !overlay.Mapping? {
      return overlay;
    }
    var merged, rest := base.entries, overlay.entries.Keys;
    while rest != {}
      invariant rest <= overlay.entries.Keys
      invariant merged.Keys == base.entries.Keys + (overlay.entries.Keys - rest)
      invariant forall k :: k in merged ==>
                  merged[k] == if k in overlay.entries && k !in rest then DeepMerge(base, overlay).entries[k]
                               else base.entries[k]
      decreases rest
    {
      var k :| k in rest;
      var value := overlay.entries[k];
      if k in merged {
        var baseValue := merged[k];
        merged := merged - {k};
        value := DeepMergeInPlace(baseValue, value);
      }
      merged := merged[k := value];
      rest := rest - {k};
    }
    r := Mapping(merged);
    assert merged == DeepMerge(base, overlay).entries;
  }

  // ----- Every path of a merged document -----

  function Lookup(v: Value, path: KeyPath): Option<Value> {
    if |path| == 0 then Some(v)
    else if v.Mapping? && path[0] in v.entries then Lookup(v.entries[path[0]], path[1..])
    else None
  }

  /** A value that is not a mapping sits at a proper prefix of the path. */
  predicate Shadows(v: Value, path: KeyPath) {
    |path| > 0 && (!v.Mapping? || (path[0] in v.entries && Shadows(v.entries[path[0]], path[1..])))
  }

  /**
   What a merge holds at every path: where the overlay has a value, that value (merged into the
   base's, if there is one); nothing where an overlay leaf shadows the path; else the base's value.
   */
  lemma {:induction false} MergeAtPath(base: Value, overlay: Value, path: KeyPath)
    ensures Lookup(DeepMerge(base, overlay), path) ==
            match Lookup(overlay, path)
            case Some(o) =>
              var b := Lookup(base, path);
              Some(if b.Some? then DeepMerge(b.value, o) else o)
            case None => if Shadows(overlay, path) then None else Lookup(base, path)
    decreases |path|
  {
    if |path| > 0 {
      var k, rest := path[0], path[1..];
      if base.Mapping? && overlay.Mapping? && k in base.entries && k in overlay.entries {
        MergeAtPath(base.entries[k], overlay.entries[k], rest);
      } else if overlay.Mapping? && k in overlay.entries {
        LookupOrShadow(overlay, path);
      } else if !overlay.Mapping? {
        assert Shadows(overlay, path);
      }
    }
  }

  lemma LookupOrShadow(v: Value, path: KeyPath)
    ensures !(Lookup(v, path).Some? && Shadows(v, path))
  {
    if |path| > 0 && v.Mapping? && path[0] in v.entries {
      LookupOrShadow(v.entries[path[0]], path[1..]);
    }
  }

  /** The overlay's leaves always win. */
  lemma OverlayLeavesWin(base: Value, overlay: Value, path: KeyPath)
    requires Lookup(overlay, path).Some? && !Lookup(overlay, path).value.Mapping?
    ensures Lookup(DeepMerge(base, overlay), path) == Lookup(overlay, path)
  {
    MergeAtPath(base, overlay, path);
  }

  /** Merging a document with itself changes nothing. */
  lemma {:induction false} SelfMerge(v: Value)
    ensures DeepMerge(v, v) == v
  {
    if v.Mapping? {
      forall k | k in v.entries
        ensures DeepMerge(v.entries[k], v.entries[k]) == v.entries[k]
      {
        SelfMerge(v.entries[k]);
      }
      assert DeepMerge(v, v).entries == v.entries;
    }
  }

  /** Merging the same overlay a second time changes nothing. */
  lemma {:induction false} MergeTwice(base: Value, overlay: Value)
    ensures DeepMerge(DeepMerge(base, overlay), overlay) == DeepMerge(base, overlay)
    decreases overlay
  {
    var m := DeepMerge(base, overlay);
    if base.Mapping? && overlay.Mapping? {
      forall k | k in overlay.entries
        ensures DeepMerge(m.entries[k], overlay.entries[k]) == m.entries[k]
      {
        if k in base.entries {
          MergeTwice(base.entries[k], overlay.entries[k]);
        } else {
          SelfMerge(overlay.entries[k]);
        }
      }
      assert DeepMerge(m, overlay).entries == m.entries;
    } else {
      SelfMerge(overlay);
    }
  }

  /** Everything `low` holds is also in `high`, except below leaves of `high`. */
  predicate Absorbed(low: Value, high: Value)
    decreases low
  {
    low.Mapping? && high.Mapping? ==>
      low.entries.Keys <= high.entries.Keys &&
      forall k :: k in low.entries ==> Absorbed(low.entries[k], high.entries[k])
  }

  lemma {:induction false} AbsorbedExactlyWhen(low: Value, high: Value)
    ensures DeepMerge(low, high) == high <==> Absorbed(low, high)
    decreases low
  {
    if low.Mapping? && high.Mapping? {
      var m := DeepMerge(low, high);
      forall k | k in low.entries && k in high.entries
        ensures DeepMerge(low.entries[k], high.entries[k]) == high.entries[k] <==>
                Absorbed(low.entries[k], high.entries[k])
      {
        AbsorbedExactlyWhen(low.entries[k], high.entries[k]);
      }
      if m == high {
        assert forall k :: k in low.entries ==> k in m.entries && m.entries[k] == high.entries[k];
      }
      if Absorbed(low, high) {
        assert m.entries == high.entries;
      }
    }
  }

  /** Wherever a leaf of `b` stands between mappings of `a` and `c`, it hides nothing that `c` lacks. */
  predicate MiddleHidesNothing(a: Value, b: Value, c: Value)
    decreases c
  {
    c.Mapping? ==>
      if !b.Mapping? then Absorbed(a, c)
      else a.Mapping? ==>
        forall k :: k in c.entries && k in b.entries && k in a.entries ==>
          MiddleHidesNothing(a.entries[k], b.entries[k], c.entries[k])
  }

  /** Merging is associative exactly when no leaf in the middle hides part of the first document. */
  lemma {:induction false} MergeAssociatesExactlyWhen(a: Value, b: Value, c: Value)
    ensures DeepMerge(DeepMerge(a, b), c) == DeepMerge(a, DeepMerge(b, c)) <==> MiddleHidesNothing(a, b, c)
    decreases c
  {
    if c.Mapping? {
      if !b.Mapping? {
        AbsorbedExactlyWhen(a, c);
      } else if a.Mapping? {
        var left, right := DeepMerge(DeepMerge(a, b), c), DeepMerge(a, DeepMerge(b, c));
        assert left.entries.Keys == right.entries.Keys;
        forall k | k in left.entries
          ensures left.entries[k] == right.entries[k] <==>
                  (k in a.entries && k in b.entries && k in c.entries ==>
                     MiddleHidesNothing(a.entries[k], b.entries[k], c.entries[k]))
        {
          if k in a.entries && k in b.entries && k in c.entries {
            MergeAssociatesExactlyWhen(a.entries[k], b.entries[k], c.entries[k]);
          }
        }
        if MiddleHidesNothing(a, b, c) {
          assert left.entries == right.entries;
        }
        if left == right {
          assert forall k :: k in left.entries ==> left.entries[k] == right.entries[k];
        }
      }
    }
  }

  /** It is not associative in general: a scalar in the middle cuts the outer mappings apart. */
  lemma MergeIsNotAssociative()
    ensures var a := Mapping(map[Str("x") := Null]);
            var c := Mapping(map[Str("y") := Null]);
            DeepMerge(DeepMerge(a, Null), c) != DeepMerge(a, DeepMerge(Null, c))
  {
    var a := Mapping(map[Str("x") := Null]);
    var c := Mapping(map[Str("y") := Null]);
    assert Str("x") in a.entries && Str("x") !in c.entries;
    MergeAssociatesExactlyWhen(a, Null, c);
  }

  // ----- The legacy `address` key -----

  const LISTEN := Str("listen")
  const ADDRESS := Str("address")
  const ADDRESSES := Str("addresses")

  function AsList(v: Value): Value { if v.Sequence? then v else Sequence([v]) }

  function NormalizeSection(section: Value): Value {
    if !section.Mapping? || ADDRESS !in section.entries then section
    else
      var rest := section.entries - {ADDRESS};
      Mapping(if ADDRESSES in section.entries then rest else rest[ADDRESSES := AsList(section.entries[ADDRESS])])
  }

  /** `normalize_listen_addresses`. */
  function NormalizeListen(root: Value): Value {
    if root.Mapping? && LISTEN in root.entries && root.entries[LISTEN].Mapping? then
      var listen := root.entries[LISTEN].entries;
      Mapping(root.entries[LISTEN := Mapping(map k | k in listen :: NormalizeSection(listen[k]))])
    else root
  }

  method NormalizeListenAddresses(root: Value) returns (r: Value)
    ensures r == NormalizeListen(root)
  {
    if !root.Mapping? || LISTEN !in root.entries || !root.entries[LISTEN].Mapping? {
      return root;
    }
    var original := root.entries[LISTEN].entries;
    var listen, keys := original, original.Keys;
    while keys != {}
      invariant keys <= original.Keys && listen.Keys == original.Keys
      invariant forall k :: k in original ==> listen[k] == if k in keys then original[k] else NormalizeSection(original[k])
      decreases keys
    {
      var k :| k in keys;
      keys := keys - {k};
      if !listen[k].Mapping? {
        continue;
      }
      var section := listen[k].entries;
      if ADDRESS in section && ADDRESSES in section {
        section := section - {ADDRESS};
      } else if ADDRESS in section {
        var address := section[ADDRESS];
        section := section - {ADDRESS};
        section := section[ADDRESSES := AsList(address)];
      }
      listen := listen[k := Mapping(section)];
    }
    assert listen == map k | k in original :: NormalizeSection(original[k]);
    r := Mapping(root.entries[LISTEN := Mapping(listen)]);
  }

  /** No listener section of the document has the legacy key. */
  ghost predicate NoLegacyKey(root: Value) {
    forall k, s :: Lookup(root, [LISTEN, k]) == Some(s) && s.Mapping? ==> ADDRESS !in s.entries
  }

  lemma LookupTwo(root: Value, a: Value, b: Value)
    ensures Lookup(root, [a, b]) ==
            if root.Mapping? && a in root.entries && root.entries[a].Mapping? && b in root.entries[a].entries
            then Some(root.entries[a].entries[b]) else None
  {
    assert [a, b][1..] == [b] && [b][1..] == [];
    if root.Mapping? && a in root.entries {
      var v := root.entries[a];
      assert Lookup(root, [a, b]) == Lookup(v, [b]);
      if v.Mapping? && b in v.entries {
        assert Lookup(v, [b]) == Lookup(v.entries[b], []);
      }
    }
  }

  lemma NormalizedHasNoLegacyKey(root: Value)
    ensures NoLegacyKey(NormalizeListen(root))
  {
    forall k, s | Lookup(NormalizeListen(root), [LISTEN, k]) == Some(s) && s.Mapping?
      ensures ADDRESS !in s.entries
    {
      LookupTwo(NormalizeListen(root), LISTEN, k);
      assert ADDRESS != ADDRESSES;
    }
  }

  lemma MergeKeepsNoLegacyKey(base: Value, overlay: Value)
    requires NoLegacyKey(base) && NoLegacyKey(overlay)
    ensures NoLegacyKey(DeepMerge(base, overlay))
  {
    forall k, s | Lookup(DeepMerge(base, overlay), [LISTEN, k]) == Some(s) && s.Mapping?
      ensures ADDRESS !in s.entries
    {
      MergeAtPath(base, overlay, [LISTEN, k]);
      var o, b := Lookup(overlay, [LISTEN, k]), Lookup(base, [LISTEN, k]);
      if o.Some? && b.Some? {
        assert s == DeepMerge(b.value, o.value);
        assert o.value.Mapping?;
      }
    }
  }

  /** `merge_with_example`, between parsing and printing: both sides are normalised, then merged. */
  function MergeWithExample(example: Value, user: Value): Value {
    DeepMerge(NormalizeListen(example), NormalizeListen(user))
  }

  /** The merged configuration never has the legacy key. */
  lemma MergedHasNoLegacyKey(example: Value, user: Value)
    ensures NoLegacyKey(MergeWithExample(example, user))
  {
    NormalizedHasNoLegacyKey(example);
    NormalizedHasNoLegacyKey(user);
    MergeKeepsNoLegacyKey(NormalizeListen(example), NormalizeListen(user));
  }

  lemma LookupFirst(root: Value, path: KeyPath)
    requires |path| > 0
    ensures Lookup(root, path) == if root.Mapping? && path[0] in root.entries then Lookup(root.entries[path[0]], path[1..]) else None
  {
  }

  /** Outside listener sections nothing changes; inside, nothing but the two address keys. */
  lemma NormalizeKeepsOthers(root: Value, path: KeyPath)
    requires |path| > 0
    requires path[0] == Str("listen") ==> |path| >= 3 && path[2] != Str("address") && path[2] != Str("addresses")
    ensures Lookup(NormalizeListen(root), path) == Lookup(root, path)
  {
    var n := NormalizeListen(root);
    LookupFirst(root, path);
    LookupFirst(n, path);
    if path[0] == LISTEN && n != root {
      var listen, listen' := root.entries[LISTEN], n.entries[LISTEN];
      var rest := path[1..];
      LookupFirst(listen, rest);
      LookupFirst(listen', rest);
      if rest[0] in listen.entries {
        LookupFirst(listen.entries[rest[0]], rest[1..]);
        LookupFirst(listen'.entries[rest[0]], rest[1..]);
        assert rest[1..][0] == path[2];
      }
    }
  }

  /** A legacy address becomes the section's address list; a list it already had stays. */
  lemma NormalizeMovesAddress(root: Value, k: Value)
    requires var s := Lookup(root, [LISTEN, k]); s.Some? && s.value.Mapping?
    ensures var before := Lookup(root, [LISTEN, k]).value.entries;
            var after := Lookup(NormalizeListen(root), [LISTEN, k]);
            && after.Some? && after.value.Mapping? && Str("address") !in after.value.entries
            && (Str("addresses") in before ==>
                  Str("addresses") in after.value.entries && after.value.entries[Str("addresses")] == before[Str("addresses")])
            && (Str("addresses") !in before && Str("address") in before ==>
                  Str("addresses") in after.value.entries && IsListOf(before[Str("address")], after.value.entries[Str("addresses")]))
            && (Str("addresses") !in before && Str("address") !in before ==> Str("addresses") !in after.value.entries)
  {
    LookupTwo(root, LISTEN, k);
    LookupTwo(NormalizeListen(root), LISTEN, k);
    assert ADDRESS != ADDRESSES;
  }

  /** A list stays itself; anything else becomes the only element of a list. */
  predicate IsListOf(v: Value, list: Value) {
    match v
    case Sequence(_) => list == v
    case _ => list.Sequence? && |list.items| == 1 && list.items[0] == v
  }

  lemma LookupThree(root: Value, a: Value, b: Value, c: Value)
    ensures Lookup(root, [a, b, c]) ==
            if root.Mapping? && a in root.entries then Lookup(root.entries[a], [b, c]) else None
  {
    assert [a, b, c][1..] == [b, c];
  }

  /** A listener address the user gave under the legacy key still wins over the example's addresses. */
  lemma UserLegacyAddressWins(example: Value, user: Value, k: Value)
    requires var s := Lookup(user, [LISTEN, k]);
             s.Some? && s.value.Mapping? && ADDRESS in s.value.entries && ADDRESSES !in s.value.entries
    ensures var r := Lookup(MergeWithExample(example, user), [LISTEN, k, ADDRESSES]);
            r.Some? && IsListOf(Lookup(user, [LISTEN, k]).value.entries[ADDRESS], r.value)
  {
    var u := NormalizeListen(user);
    LookupTwo(user, LISTEN, k);
    LookupThree(u, LISTEN, k, ADDRESSES);
    LookupTwo(u.entries[LISTEN], k, ADDRESSES);
    OverlayLeavesWin(NormalizeListen(example), u, [LISTEN, k, ADDRESSES]);
  }
}
