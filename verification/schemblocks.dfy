/** Block names, state strings and the per-region id table of the Sponge
    schematic converter (`AdvancedLitematicConverter`). */
module SchemBlocks {
  import opened Common
  import opened StateString
  import opened Palette

  const Namespace: string := "minecraft:"

  // ---------------------------------------------------------------------
  // convert_block_name
  // ---------------------------------------------------------------------

  /** A name that already carries a namespace is kept; any other name is
      put in the `minecraft` namespace. The result always carries one and
      ends with the name it was given. */
  function ConvertBlockName(name: string): (r: string)
    ensures ':' in r
    ensures |name| <= |r| && r[|r| - |name|..] == name
    ensures r == name <==> ':' in name
  {
    if ':' in name then name else Namespace + name
  }

  /** Normalising a normalised name changes nothing. */
  lemma ConvertBlockNameIdempotent(name: string)
    ensures ConvertBlockName(ConvertBlockName(name)) == ConvertBlockName(name)
  {
  }

  // ---------------------------------------------------------------------
  // create_block_state_string
  // ---------------------------------------------------------------------

  /** The normalised id, with `[k=v,...]` in key order when the block has
      properties. */
  function CreateBlockStateString(b: BlockState): string
  {
    FormatState(ConvertBlockName(b.id), b.props)
  }

  /** The text depends only on the properties, not on the order the
      dictionary holds them in. */
  lemma CreateOrderIndependent(id: string, p: Props, q: Props)
    requires DistinctKeys(p) && DistinctKeys(q) && multiset(p) == multiset(q)
    ensures CreateBlockStateString(BlockState(id, p)) == CreateBlockStateString(BlockState(id, q))
  {
    FormatOrderIndependent(ConvertBlockName(id), p, q);
  }

  /** For a namespaced id the two converters write the same state text. */
  lemma SchemAgreesWithBlueprint(b: BlockState)
    requires ':' in b.id
    ensures CreateBlockStateString(b) == BlockStateString(b)
  {
  }

  /** The state text reads back as the normalised id and the properties in
      key order, under the same conditions as the blueprint text. */
  lemma CreateParses(b: BlockState)
    requires DistinctKeys(b.props) && Parseable(b.id, b.props)
    ensures ParseEntry(CreateBlockStateString(b)) ==
      Some(PaletteEntry(ConvertBlockName(b.id), if |b.props| == 0 then None else Some(SortProps(b.props))))
  {
    var name := ConvertBlockName(b.id);
    if ':' !in b.id {
      assert '[' !in Namespace;
      assert forall i :: 0 <= i < |name| ==> name[i] == (if i < |Namespace| then Namespace[i] else b.id[i - |Namespace|]);
    }
    assert Parseable(name, b.props);
    ParseFormat(name, b.props);
  }

  // ---------------------------------------------------------------------
  // get_block_id
  // ---------------------------------------------------------------------

  /** `block_palette` (state -> id, insertion-ordered) and
      `block_id_counter`. */
  datatype IdTable = IdTable(palette: seq<(string, nat)>, counter: nat)

  /** Both are reset at the start of every region. */
  const EmptyTable: IdTable := IdTable([], 0)

  /** The table's invariant: ids are 0, 1, 2, ... in insertion order and
      the counter is the number of states. */
  predicate Good(t: IdTable)
  {
    t.counter == |t.palette| &&
    (forall i :: 0 <= i < |t.palette| ==> t.palette[i].1 == i) &&
    DistinctKeys(t.palette)
  }

  /** The states in insertion order. */
  function States(t: IdTable): (r: seq<string>)
    ensures |r| == |t.palette| && forall i :: 0 <= i < |r| ==> r[i] == t.palette[i].0
  {
    seq(|t.palette|, i requires 0 <= i < |t.palette| => t.palette[i].0)
  }

  /** A known state gets its id; a new one gets the counter, which then
      moves on. */
  function GetBlockId(t: IdTable, s: string): (r: (nat, IdTable))
  {
    match Lookup(t.palette, s)
      case Some(id) => (id, t)
      case None => (t.counter, IdTable(t.palette + [(s, t.counter)], t.counter + 1))
  }

  lemma LookupGood(t: IdTable, s: string)
    requires Good(t)
    ensures Lookup(t.palette, s).Some? <==> s in States(t)
    ensures Lookup(t.palette, s).Some? ==> Lookup(t.palette, s).value == IndexOf(States(t), s)
  {
    LookupFacts(t.palette, s);
    if Lookup(t.palette, s).Some? {
      var i :| 0 <= i < |t.palette| && t.palette[i] == (s, Lookup(t.palette, s).value);
      assert States(t)[i] == s;
      IndexOfDistinctStates(t, i);
    }
    if s in States(t) {
      var i :| 0 <= i < |States(t)| && States(t)[i] == s;
      assert t.palette[i].0 == s;
    }
  }

  lemma IndexOfDistinctStates(t: IdTable, i: nat)
    requires Good(t) && i < |t.palette|
    ensures IndexOf(States(t), t.palette[i].0) == i
  {
    var st := States(t);
    assert Distinct(st) by {
      forall a, b | 0 <= a < b < |st| ensures st[a] != st[b] {
        assert t.palette[a].0 != t.palette[b].0;
      }
    }
    IndexOfDistinct(st, i);
  }

  /** get_block_id keeps the table's invariant and is the first-seen
      palette of the blueprint converter: the states after the call are
      those of `AddState`, and the id returned is the state's position. */
  lemma GetBlockIdSpec(t: IdTable, s: string)
    requires Good(t)
    ensures Good(GetBlockId(t, s).1)
    ensures States(GetBlockId(t, s).1) == AddState(States(t), s)
    ensures GetBlockId(t, s).0 == IndexOf(AddState(States(t), s), s)
    ensures GetBlockId(t, s).0 < GetBlockId(t, s).1.counter
  {
    LookupGood(t, s);
    var r := GetBlockId(t, s);
    if Lookup(t.palette, s).None? {
      var p := t.palette + [(s, t.counter)];
      forall i, j | 0 <= i < j < |p| ensures p[i].0 != p[j].0 {
        if j == |p| - 1 {
          assert p[i].0 == States(t)[i];
        }
      }
      assert States(r.1) == States(t) + [s];
      IndexOfLast(States(t), s);
    }
  }

  /** Different states never share an id in a good table. */
  lemma IdsInjective(t: IdTable, s1: string, s2: string)
    requires Good(t) && s1 != s2
    requires Lookup(t.palette, s1).Some? && Lookup(t.palette, s2).Some?
    ensures Lookup(t.palette, s1).value != Lookup(t.palette, s2).value
  {
    LookupFacts(t.palette, s1);
    LookupFacts(t.palette, s2);
  }
}
