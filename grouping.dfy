/** The map's layers (BIM_a_GIS_2D.py:238-251): the GeoJSON features grouped by the
    file they came from, one group per file in order of first appearance, each group
    coloured from a ten-colour palette in turn. */
module Grouping {
  import opened Values
  import opened Converter

  /** `feature["properties"].get("Source_File", "Desconocido")`. */
  function SourceOf(props: Record): Value
  {
    if "Source_File" in props then props["Source_File"] else Text("Desconocido")
  }

  /** The group key of every feature. */
  function Sources(features: seq<Feature>): (keys: seq<Value>)
    reads set f | f in features
    ensures |keys| == |features|
    ensures forall i :: 0 <= i < |features| ==> keys[i] == SourceOf(features[i].properties)
  {
    seq(|features|, i reads set f | f in features requires 0 <= i < |features| => SourceOf(features[i].properties))
  }

  /** `features_by_file`: each key with its list, in insertion order. */
  type Groups = seq<(Value, seq<Feature>)>

  /** Where `key` sits among the groups, or `|groups|` when it has none yet. */
  function GroupIndex(groups: Groups, key: Value): (i: nat)
    ensures i <= |groups|
    ensures i < |groups| ==> groups[i].0 == key
    ensures forall j :: 0 <= j < i ==> groups[j].0 != key
  {
    if |groups| == 0 then 0
    else if groups[0].0 == key then 0
    else 1 + GroupIndex(groups[1..], key)
  }

  /** `features_by_file.setdefault(key, []).append(item)`. */
  function AddTo(groups: Groups, key: Value, item: Feature): Groups
  {
    var i := GroupIndex(groups, key);
    if i < |groups| then groups[i := (key, groups[i].1 + [item])] else groups + [(key, [item])]
  }

  /** The groups after adding every item under its key, one after another. */
  function GroupBy(items: seq<Feature>, keys: seq<Value>): Groups
    requires |keys| == |items|
  {
    if |items| == 0 then []
    else AddTo(GroupBy(items[..|items| - 1], keys[..|keys| - 1]), keys[|keys| - 1], items[|items| - 1])
  }

  /** The items whose key is `key`, in order: what its group should hold. */
  function Members(items: seq<Feature>, keys: seq<Value>, key: Value): seq<Feature>
    requires |keys| == |items|
  {
    if |items| == 0 then []
    else Members(items[..|items| - 1], keys[..|keys| - 1], key) + if keys[|keys| - 1] == key then [items[|items| - 1]] else []
  }

  /** The index of the first occurrence of `key`. */
  function FirstAt(keys: seq<Value>, key: Value): (i: nat)
    requires key in keys
    ensures i < |keys| && keys[i] == key
    ensures forall j :: 0 <= j < i ==> keys[j] != key
  {
    if keys[0] == key then 0 else 1 + FirstAt(keys[1..], key)
  }

  lemma {:induction false} FirstAtPrefix(keys: seq<Value>, n: nat, key: Value)
    requires n <= |keys| && key in keys[..n]
    ensures FirstAt(keys[..n], key) == FirstAt(keys, key)
  {
    var i := FirstAt(keys[..n], key);
    var j := FirstAt(keys, key);
    assert keys[..n][i] == key;
  }

  predicate DistinctKeys(groups: Groups)
  {
    forall a, b :: 0 <= a < b < |groups| ==> groups[a].0 != groups[b].0
  }

  /** One `setdefault(...).append`: the item goes to the end of its key's group, or
      into a new last group when the key has none; no other group changes. */
  lemma AddToShape(groups: Groups, key: Value, item: Feature)
    requires DistinctKeys(groups)
    ensures DistinctKeys(AddTo(groups, key, item))
    ensures |AddTo(groups, key, item)| == |groups| <==> exists g :: 0 <= g < |groups| && groups[g].0 == key
    ensures |AddTo(groups, key, item)| == |groups| + 1 <==> forall g :: 0 <= g < |groups| ==> groups[g].0 != key
    ensures forall g :: 0 <= g < |groups| ==>
      AddTo(groups, key, item)[g] == (groups[g].0, groups[g].1 + if groups[g].0 == key then [item] else [])
    ensures |AddTo(groups, key, item)| == |groups| + 1 ==> AddTo(groups, key, item)[|groups|] == (key, [item])
  {
    var i := GroupIndex(groups, key);
    var r := AddTo(groups, key, item);
    assert forall g :: 0 <= g < |groups| ==> groups[g].1 + [] == groups[g].1;
    if i < |groups| {
      assert groups[i].0 == key;
      assert r == groups[i := (key, groups[i].1 + [item])];
      assert forall g :: 0 <= g < |groups| && groups[g].0 == key ==> g == i;
    } else {
      assert r == groups + [(key, [item])];
    }
  }

  /** One group per key, and the keys are exactly those of the items. */
  lemma {:induction false} GroupKeys(items: seq<Feature>, keys: seq<Value>)
    requires |keys| == |items|
    ensures DistinctKeys(GroupBy(items, keys))
    ensures forall k :: k in keys <==> exists g :: 0 <= g < |GroupBy(items, keys)| && GroupBy(items, keys)[g].0 == k
  {
    if |items| > 0 {
      var n := |items| - 1;
      var init := GroupBy(items[..n], keys[..n]);
      GroupKeys(items[..n], keys[..n]);
      AddToShape(init, keys[n], items[n]);
      var groups := GroupBy(items, keys);
      assert keys == keys[..n] + [keys[n]];
      forall k ensures k in keys <==> exists g :: 0 <= g < |groups| && groups[g].0 == k {
        if k in keys[..n] {
          var g :| 0 <= g < |init| && init[g].0 == k;
          assert groups[g].0 == k;
        } else if k == keys[n] && |groups| == |init| + 1 {
          assert groups[|init|].0 == k;
        }
      }
    }
  }

  /** Every feature lands in the group of its key and only there: each group holds
      exactly the features with its key, in their order. */
  lemma {:induction false} GroupMembers(items: seq<Feature>, keys: seq<Value>)
    requires |keys| == |items|
    ensures forall g :: 0 <= g < |GroupBy(items, keys)| ==>
      GroupBy(items, keys)[g].1 == Members(items, keys, GroupBy(items, keys)[g].0)
  {
    if |items| > 0 {
      var n := |items| - 1;
      var init := GroupBy(items[..n], keys[..n]);
      GroupMembers(items[..n], keys[..n]);
      GroupKeys(items[..n], keys[..n]);
      AddToShape(init, keys[n], items[n]);
      var groups := GroupBy(items, keys);
      if |groups| == |init| + 1 {
        assert keys[n] !in keys[..n];
        MembersAbsent(items[..n], keys[..n], keys[n]);
      }
    }
  }

  lemma {:induction false} MembersAbsent(items: seq<Feature>, keys: seq<Value>, key: Value)
    requires |keys| == |items| && key !in keys
    ensures Members(items, keys, key) == []
  {
    if |items| > 0 {
      MembersAbsent(items[..|items| - 1], keys[..|keys| - 1], key);
    }
  }

  /** Each group's key occurs among `keys`, and earlier groups' keys occur first. */
  predicate InFirstOrder(groups: Groups, keys: seq<Value>)
  {
    forall a, b :: 0 <= a < b < |groups| ==>
      groups[a].0 in keys && groups[b].0 in keys && FirstAt(keys, groups[a].0) < FirstAt(keys, groups[b].0)
  }

  /** One `setdefault(...).append` keeps the groups in the order in which their keys
      first appear. */
  lemma AddToKeepsOrder(groups: Groups, keys: seq<Value>, key: Value, item: Feature)
    requires DistinctKeys(groups) && InFirstOrder(groups, keys)
    requires forall k :: k in keys <==> exists g :: 0 <= g < |groups| && groups[g].0 == k
    ensures InFirstOrder(AddTo(groups, key, item), keys + [key])
  {
    AddToShape(groups, key, item);
    var r := AddTo(groups, key, item);
    var all := keys + [key];
    assert all[..|keys|] == keys;
    forall a, b | 0 <= a < b < |r|
      ensures r[a].0 in all && r[b].0 in all && FirstAt(all, r[a].0) < FirstAt(all, r[b].0)
    {
      var ka := groups[a].0;
      assert r[a].0 == ka && ka in keys;
      FirstAtPrefix(all, |keys|, ka);
      if b < |groups| {
        assert r[b].0 == groups[b].0 && groups[b].0 in keys;
        FirstAtPrefix(all, |keys|, groups[b].0);
      } else {
        assert r[b].0 == key && key !in keys;
      }
    }
  }

  /** The groups come in the order in which their keys first appear. */
  lemma {:induction false} GroupOrder(items: seq<Feature>, keys: seq<Value>)
    requires |keys| == |items|
    ensures InFirstOrder(GroupBy(items, keys), keys)
  {
    if |items| > 0 {
      var n := |items| - 1;
      GroupOrder(items[..n], keys[..n]);
      GroupKeys(items[..n], keys[..n]);
      assert keys == keys[..n] + [keys[n]];
      AddToKeepsOrder(GroupBy(items[..n], keys[..n]), keys[..n], keys[n], items[n]);
    }
  }

  /** Lines 238-241: the features of the collection grouped by source file. */
  method GroupByFile(features: seq<Feature>) returns (groups: Groups)
    ensures groups == GroupBy(features, Sources(features))
  {
    ghost var keys := Sources(features);
    groups := [];
    for i := 0 to |features|
      invariant groups == GroupBy(features[..i], keys[..i])
    {
      assert features[..i + 1][..i] == features[..i] && keys[..i + 1][..i] == keys[..i];
      var key := SourceOf(features[i].properties);
      groups := AddTo(groups, key, features[i]);
    }
    assert features[..|features|] == features && keys[..|features|] == keys;
  }

  // ---------------------------------------------------------------------------
  // Colours
  // ---------------------------------------------------------------------------

  /** Lines 245-248. */
  const Palette: seq<string> := [
    "#1f77b4", "#ff7f0e", "#2ca02c", "#d62728", "#9467bd",
    "#8c564b", "#e377c2", "#7f7f7f", "#bcbd22", "#17becf"
  ]

  /** Line 251: group `i` takes the palette's colours in turn. */
  function GroupColor(i: nat): (c: string)
    ensures c in Palette
  {
    Palette[i % |Palette|]
  }

  /** The colours repeat after ten groups, and any ten consecutive groups all get
      different colours. */
  lemma GroupColorCycle(i: nat, j: nat)
    ensures GroupColor(i + |Palette|) == GroupColor(i)
    ensures i < j < i + |Palette| ==> GroupColor(i) != GroupColor(j)
  {
    assert (i + 10) % 10 == i % 10;
    if i < j < i + 10 {
      assert i % 10 != j % 10;
      assert forall a, b :: 0 <= a < b < 10 ==> Palette[a] != Palette[b] by {
        forall a, b | 0 <= a < b < 10 ensures Palette[a] != Palette[b] {
          assert Palette[a][1..3] != Palette[b][1..3] || Palette[a][3..] != Palette[b][3..];
        }
      }
    }
  }

  /** Lines 250-251: each group with its colour, in group order. */
  method LayerColors(groups: Groups) returns (layers: seq<(Value, string)>)
    ensures |layers| == |groups|
    ensures forall i :: 0 <= i < |groups| ==> layers[i] == (groups[i].0, GroupColor(i))
  {
    layers := [];
    for i := 0 to |groups|
      invariant |layers| == i
      invariant forall k :: 0 <= k < i ==> layers[k] == (groups[k].0, GroupColor(k))
    {
      var color := Palette[i % |Palette|];
      layers := layers + [(groups[i].0, color)];
    }
  }
}
