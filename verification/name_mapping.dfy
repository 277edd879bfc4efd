/**
 District-name canonicalisation: `NAME_MAPPING_DICT` and the
 strip-then-`dict.get(x, x)` applied to the `Territorial Authority` column.
 The table is a parameter so it can be swapped; `NameMappingDict` is the one
 the loader uses.
 */
module NameMapping {
  import opened PyText

  /** The loader's fixed district-name corrections. */
  const NameMappingDict: map<string, string> := map[
    "Opotiki District" := "Ōpōtiki District",
    "Otorohanga District" := "Ōtorohanga District",
    "Auckland Council" := "Auckland",
    "Tauranga District" := "Tauranga City",
    "Central Hawke's Bay District" := "Central Hawke's Bay District"
  ]

  /** `m.get(k, k)`: the mapped value, or the key itself when it is absent. */
  function Lookup(m: map<string, string>, k: string): (r: string)
    ensures k in m ==> r == m[k]
    ensures k !in m ==> r == k
  {
    if k in m then m[k] else k
  }

  /** One cell of the district column: whitespace trimmed, then looked up. */
  function Standardize(m: map<string, string>, v: string): (r: string)
    ensures Strip(v) in m ==> r == m[Strip(v)]
    ensures Strip(v) !in m ==> r == Strip(v)
  {
    Lookup(m, Strip(v))
  }

  /** A mapping whose targets are already canonical: each target is stripped
      and is either not a key or a key mapped to itself. */
  predicate Settled(m: map<string, string>) {
    forall k :: k in m ==> IsStripped(m[k]) && Lookup(m, m[k]) == m[k]
  }

  /** Standardisation either leaves the trimmed value alone or replaces it by
      one of the mapping's targets; it changes nothing else. */
  lemma StandardizeRange(m: map<string, string>, v: string)
    ensures Standardize(m, v) == Strip(v) || Standardize(m, v) in m.Values
    ensures Standardize(m, v) != Strip(v) ==> Strip(v) in m
  {
    if Strip(v) in m {
      assert m[Strip(v)] in m.Values;
    }
  }

  /** With a settled mapping, standardising twice is standardising once. */
  lemma StandardizeIdempotent(m: map<string, string>, v: string)
    requires Settled(m)
    ensures Standardize(m, Standardize(m, v)) == Standardize(m, v)
  {
    var t := Strip(v);
    if t in m {
      StripFixesStripped(m[t]);
    } else {
      StripFixesStripped(t);
    }
  }

  /** The loader's table is settled: no target is itself corrected again. */
  lemma NameMappingDictSettled()
    ensures Settled(NameMappingDict)
  {
    var m := NameMappingDict;
    forall k | k in m
      ensures IsStripped(m[k]) && Lookup(m, m[k]) == m[k]
    {
      var v := m[k];
      assert v[0] != ' ' && v[|v| - 1] != ' ';
      if v in m {
        assert v == "Central Hawke's Bay District";
      }
    }
  }

  /** The Central Hawke's Bay entry maps the name to itself: a no-op, with or
      without whitespace on either side. */
  lemma CentralHawkesBayNoOp(pre: string, post: string)
    requires forall i :: 0 <= i < |pre| ==> IsSpace(pre[i])
    requires forall i :: 0 <= i < |post| ==> IsSpace(post[i])
    ensures Standardize(NameMappingDict, pre + "Central Hawke's Bay District" + post)
         == "Central Hawke's Bay District"
  {
    var name := "Central Hawke's Bay District";
    var s := pre + name + post;
    assert s[|pre|..|pre| + |name|] == name;
    assert IsStripped(name);
    assert StripsTo(s, name, |pre|);
    StripCharacterized(s, name, |pre|);
  }

  /** A trimmed spelling that is a key is corrected. */
  lemma OpotikiCorrected()
    ensures Standardize(NameMappingDict, " Opotiki District ") == "Ōpōtiki District"
  {
    var s, name := " Opotiki District ", "Opotiki District";
    assert s[1..1 + |name|] == name;
    assert IsStripped(name);
    assert StripsTo(s, name, 1);
    StripCharacterized(s, name, 1);
  }

  /** A stripped value that is not a key passes through unchanged. */
  lemma UnknownDistrictUnchanged(v: string)
    requires IsStripped(v) && v !in NameMappingDict
    ensures Standardize(NameMappingDict, v) == v
  {
    StripFixesStripped(v);
  }

  /** A value that is not a key, once trimmed, comes back trimmed: the
      whitespace around it is dropped even though nothing is looked up. */
  lemma PaddedUnknownDistrictTrimmed(pre: string, v: string, post: string)
    requires forall i :: 0 <= i < |pre| ==> IsSpace(pre[i])
    requires forall i :: 0 <= i < |post| ==> IsSpace(post[i])
    requires IsStripped(v) && v !in NameMappingDict
    ensures Standardize(NameMappingDict, pre + v + post) == v
  {
    var s := pre + v + post;
    assert s[|pre|..|pre| + |v|] == v;
    assert StripsTo(s, v, |pre|);
    StripCharacterized(s, v, |pre|);
  }
}
