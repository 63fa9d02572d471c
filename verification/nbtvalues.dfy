/** `convert_nbt_value`: the blueprint converter rebuilds every tile-entity
    value it copies as an nbtlib tag. Input values are Python objects (the
    tags nbtlib loaded are Python `str`, `int`, `float`, `list` and `dict`
    subclasses); the `isinstance` tests run None, str, int, float, bool,
    list, dict, so a `bool` is caught by the `int` test and becomes an `Int`
    tag and the `Byte` branch is never taken. */
module NbtValues {
  import opened Common

  /** The Python values convert_nbt_value distinguishes. `POther` is any
      other object, carrying what `str()` makes of it. */
  datatype PyValue =
    | PNone
    | PBool(b: bool)
    | PInt(i: int)
    | PFloat(f: real)
    | PStr(s: string)
    | PList(items: seq<PyValue>)
    | PDict(entries: seq<(string, PyValue)>)
    | POther(text: string)

  /** nbtlib tags the conversion can build. */
  datatype Nbt =
    | NString(s: string)
    | NInt(i: int)
    | NFloat(f: real)
    | NByte(b: int)
    | NList(items: seq<Nbt>)
    | NCompound(entries: seq<(string, Nbt)>)

  /** A conversion returns None (the value is dropped), a tag, or raises
      (a dict-headed list with an item that has no `.items()`, or a list
      whose converted items are not all of one kind). */
  datatype Conv = Dropped | Value(tag: Nbt) | Raises

  /** The tag kinds `nbtlib.List` tells apart when it infers the element
      type of a list. Every list counts as one kind: nbtlib gives a list of
      lists with different element types the generic list type. */
  datatype TagKind = KString | KInt | KFloat | KByte | KList | KCompound

  function Kind(t: Nbt): TagKind
  {
    match t
      case NString(_) => KString
      case NInt(_) => KInt
      case NFloat(_) => KFloat
      case NByte(_) => KByte
      case NList(_) => KList
      case NCompound(_) => KCompound
  }

  /** The kind of tag a value that is not None becomes. */
  function PyKind(v: PyValue): TagKind
    requires !v.PNone?
  {
    match v
      case PStr(_) => KString
      case POther(_) => KString
      case PInt(_) => KInt
      case PBool(_) => KInt
      case PFloat(_) => KFloat
      case PList(_) => KList
      case PDict(_) => KCompound
  }

  function Kinds(ts: seq<Nbt>): (r: seq<TagKind>)
    ensures |r| == |ts| && forall i :: 0 <= i < |ts| ==> r[i] == Kind(ts[i])
  {
    seq(|ts|, i requires 0 <= i < |ts| => Kind(ts[i]))
  }

  /** The kinds of the values that are not None, in order. */
  function PyKinds(vs: seq<PyValue>): seq<TagKind>
  {
    if |vs| == 0 then []
    else (if vs[0].PNone? then [] else [PyKind(vs[0])]) + PyKinds(vs[1..])
  }

  predicate AllSame(ks: seq<TagKind>)
  {
    forall i :: 0 <= i < |ks| ==> ks[i] == ks[0]
  }

  /** `nbtlib.List(items)` takes the element type from the first item and
      raises IncompatibleItemType for an item of another kind. */
  predicate Uniform(ts: seq<Nbt>)
  {
    AllSame(Kinds(ts))
  }

  function ConvertValue(v: PyValue): Conv
    decreases v, 1
  {
    match v
      case PNone => Dropped
      case PStr(s) => Value(NString(s))
      // bool is a subclass of int: the int test answers first
      case PInt(i) => Value(NInt(i))
      case PBool(b) => Value(NInt(if b then 1 else 0))
      case PFloat(f) => Value(NFloat(f))
      case PList(items) =>
        if |items| == 0 then Value(NList([]))
        else if items[0].PDict? then ConvertCompounds(v, 0, [])
        else ConvertItems(v, 0, [])
      case PDict(_) => ConvertEntries(v, 0, [])
      case POther(t) => Value(NString(t))
  }

  /** `compound[k] = converted` for each item whose conversion is not None. */
  function ConvertEntries(v: PyValue, i: nat, acc: seq<(string, Nbt)>): Conv
    requires v.PDict? && i <= |v.entries|
    decreases v, 0, |v.entries| - i
  {
    if i == |v.entries| then Value(NCompound(acc))
    else
      var e := v.entries[i];
      match ConvertValue(e.1)
        case Raises => Raises
        case Dropped => ConvertEntries(v, i + 1, acc)
        case Value(t) => ConvertEntries(v, i + 1, Assign(acc, e.0, t))
  }

  /** A list whose first item is not a dict: convert each item, drop None,
      and hand the rest to `nbtlib.List`. */
  function ConvertItems(v: PyValue, i: nat, acc: seq<Nbt>): Conv
    requires v.PList? && i <= |v.items|
    decreases v, 0, |v.items| - i
  {
    if i == |v.items| then (if Uniform(acc) then Value(NList(acc)) else Raises)
    else
      match ConvertValue(v.items[i])
        case Raises => Raises
        case Dropped => ConvertItems(v, i + 1, acc)
        case Value(t) => ConvertItems(v, i + 1, acc + [t])
  }

  /** A list whose first item is a dict: every item is read through
      `.items()`, which raises for an item that is not a dict. */
  function ConvertCompounds(v: PyValue, i: nat, acc: seq<Nbt>): Conv
    requires v.PList? && i <= |v.items|
    decreases v, 0, |v.items| - i
  {
    if i == |v.items| then Value(NList(acc))
    else if !v.items[i].PDict? then Raises
    else
      match ConvertEntries(v.items[i], 0, [])
        case Value(t) => ConvertCompounds(v, i + 1, acc + [t])
        case _ => Raises
  }

  // ---------------------------------------------------------------------
  // Properties of the conversion
  // ---------------------------------------------------------------------

  /** No `Byte` tag anywhere inside. */
  predicate NoByte(t: Nbt)
  {
    match t
      case NByte(_) => false
      case NList(items) => forall i :: 0 <= i < |items| ==> NoByte(items[i])
      case NCompound(entries) => forall i :: 0 <= i < |entries| ==> NoByte(entries[i].1)
      case _ => true
  }

  /** Every list whose first item is a dict holds only dicts, and in every
      other list the items that are not None are all of one kind. */
  predicate Regular(v: PyValue)
  {
    match v
      case PList(items) =>
        (if |items| > 0 && items[0].PDict? then forall i :: 0 <= i < |items| ==> items[i].PDict?
         else AllSame(PyKinds(items))) &&
        (forall i :: 0 <= i < |items| ==> Regular(items[i]))
      case PDict(entries) => forall i :: 0 <= i < |entries| ==> Regular(entries[i].1)
      case _ => true
  }

  /** No None anywhere inside; values read from an NBT file never hold one. */
  predicate NoNone(v: PyValue)
  {
    match v
      case PNone => false
      case PList(items) => forall i :: 0 <= i < |items| ==> NoNone(items[i])
      case PDict(entries) => forall i :: 0 <= i < |entries| ==> NoNone(entries[i].1)
      case _ => true
  }

  /** Booleans never become `Byte` tags: the conversion builds none at all. */
  lemma {:induction false} ValueNoByte(v: PyValue)
    ensures ConvertValue(v).Value? ==> NoByte(ConvertValue(v).tag)
    decreases v, 1
  {
    match v
      case PList(items) =>
        if |items| > 0 {
          if items[0].PDict? { CompoundsNoByte(v, 0, []); } else { ItemsNoByte(v, 0, []); }
        }
      case PDict(_) => EntriesNoByte(v, 0, []);
      case _ =>
  }

  lemma {:induction false} EntriesNoByte(v: PyValue, i: nat, acc: seq<(string, Nbt)>)
    requires v.PDict? && i <= |v.entries|
    requires forall p :: p in acc ==> NoByte(p.1)
    ensures ConvertEntries(v, i, acc).Value? ==> NoByte(ConvertEntries(v, i, acc).tag)
    decreases v, 0, |v.entries| - i
  {
    if i < |v.entries| {
      var e := v.entries[i];
      ValueNoByte(e.1);
      match ConvertValue(e.1)
        case Raises =>
        case Dropped => EntriesNoByte(v, i + 1, acc);
        case Value(t) =>
          AssignPairs(acc, e.0, t);
          EntriesNoByte(v, i + 1, Assign(acc, e.0, t));
    } else {
      forall j | 0 <= j < |acc| ensures NoByte(acc[j].1) {
        assert acc[j] in acc;
      }
    }
  }

  lemma {:induction false} ItemsNoByte(v: PyValue, i: nat, acc: seq<Nbt>)
    requires v.PList? && i <= |v.items|
    requires forall j :: 0 <= j < |acc| ==> NoByte(acc[j])
    ensures ConvertItems(v, i, acc).Value? ==> NoByte(ConvertItems(v, i, acc).tag)
    decreases v, 0, |v.items| - i
  {
    if i < |v.items| {
      ValueNoByte(v.items[i]);
      match ConvertValue(v.items[i])
        case Raises =>
        case Dropped => ItemsNoByte(v, i + 1, acc);
        case Value(t) => ItemsNoByte(v, i + 1, acc + [t]);
    }
  }

  lemma {:induction false} CompoundsNoByte(v: PyValue, i: nat, acc: seq<Nbt>)
    requires v.PList? && i <= |v.items|
    requires forall j :: 0 <= j < |acc| ==> NoByte(acc[j])
    ensures ConvertCompounds(v, i, acc).Value? ==> NoByte(ConvertCompounds(v, i, acc).tag)
    decreases v, 0, |v.items| - i
  {
    if i < |v.items| && v.items[i].PDict? {
      EntriesNoByte(v.items[i], 0, []);
      match ConvertEntries(v.items[i], 0, [])
        case Value(t) => CompoundsNoByte(v, i + 1, acc + [t]);
        case _ =>
    }
  }

  /** Only None is dropped, and a conversion raises exactly when some list
      headed by a dict holds an item that is not one, or some other list
      holds items of two kinds. */
  lemma {:induction false} ValueOutcome(v: PyValue)
    ensures ConvertValue(v).Dropped? <==> v.PNone?
    ensures ConvertValue(v).Raises? <==> !Regular(v)
    decreases v, 1
  {
    match v
      case PList(items) =>
        if |items| > 0 {
          if items[0].PDict? {
            CompoundsOutcome(v, 0, []);
          } else {
            ItemsOutcome(v, 0, []);
            assert Kinds([]) + PyKinds(items[0..]) == PyKinds(items);
          }
        }
      case PDict(_) => EntriesOutcome(v, 0, []);
      case _ =>
  }

  lemma {:induction false} EntriesOutcome(v: PyValue, i: nat, acc: seq<(string, Nbt)>)
    requires v.PDict? && i <= |v.entries|
    ensures !ConvertEntries(v, i, acc).Dropped?
    ensures ConvertEntries(v, i, acc).Raises? <==>
      exists j :: i <= j < |v.entries| && !Regular(v.entries[j].1)
    decreases v, 0, |v.entries| - i
  {
    if i < |v.entries| {
      var e := v.entries[i];
      ValueOutcome(e.1);
      match ConvertValue(e.1)
        case Raises =>
        case Dropped => EntriesOutcome(v, i + 1, acc);
        case Value(t) => EntriesOutcome(v, i + 1, Assign(acc, e.0, t));
    }
  }

  lemma {:induction false} ItemsOutcome(v: PyValue, i: nat, acc: seq<Nbt>)
    requires v.PList? && i <= |v.items|
    ensures !ConvertItems(v, i, acc).Dropped?
    ensures ConvertItems(v, i, acc).Raises? <==>
      (exists j :: i <= j < |v.items| && !Regular(v.items[j])) ||
      !AllSame(Kinds(acc) + PyKinds(v.items[i..]))
    decreases v, 0, |v.items| - i
  {
    var rest := v.items[i..];
    if i < |v.items| {
      ValueOutcome(v.items[i]);
      assert rest[1..] == v.items[i + 1..];
      match ConvertValue(v.items[i])
        case Raises =>
          assert !Regular(v.items[i]);
        case Dropped =>
          assert PyKinds(rest) == PyKinds(v.items[i + 1..]);
          ItemsOutcome(v, i + 1, acc);
        case Value(t) =>
          ValueKind(v.items[i]);
          ItemsOutcome(v, i + 1, acc + [t]);
          assert Kinds(acc + [t]) + PyKinds(v.items[i + 1..]) == Kinds(acc) + PyKinds(rest);
    } else {
      assert Kinds(acc) + PyKinds(rest) == Kinds(acc);
    }
  }

  /** `[1, "a"]` converts both items, and then `nbtlib.List` refuses the
      String after the Int. */
  lemma MixedListRaises()
    ensures ConvertValue(PList([PInt(1), PStr("a")])).Raises?
    ensures !Regular(PList([PInt(1), PStr("a")]))
  {
    var items := [PInt(1), PStr("a")];
    assert PyKinds(items) == [KInt, KString] by {
      assert items[1..] == [PStr("a")];
      assert [PStr("a")][1..] == [];
    }
    assert PyKinds(items)[1] != PyKinds(items)[0];
    ValueOutcome(PList(items));
  }

  /** A value that is not None converts, if at all, to a tag of its kind. */
  lemma ValueKind(v: PyValue)
    requires !v.PNone?
    ensures ConvertValue(v).Value? ==> Kind(ConvertValue(v).tag) == PyKind(v)
  {
    match v
      case PList(items) =>
        if |items| > 0 {
          if items[0].PDict? { CompoundsShape(v, 0, []); } else { ItemsShape(v, 0, []); }
        }
      case PDict(_) => EntriesShape(v, 0, []);
      case _ =>
  }

  lemma {:induction false} EntriesShape(v: PyValue, i: nat, acc: seq<(string, Nbt)>)
    requires v.PDict? && i <= |v.entries|
    ensures ConvertEntries(v, i, acc).Value? ==> ConvertEntries(v, i, acc).tag.NCompound?
    decreases |v.entries| - i
  {
    if i < |v.entries| {
      var e := v.entries[i];
      match ConvertValue(e.1)
        case Raises =>
        case Dropped => EntriesShape(v, i + 1, acc);
        case Value(t) => EntriesShape(v, i + 1, Assign(acc, e.0, t));
    }
  }

  lemma {:induction false} ItemsShape(v: PyValue, i: nat, acc: seq<Nbt>)
    requires v.PList? && i <= |v.items|
    ensures ConvertItems(v, i, acc).Value? ==> ConvertItems(v, i, acc).tag.NList?
    decreases |v.items| - i
  {
    if i < |v.items| {
      match ConvertValue(v.items[i])
        case Raises =>
        case Dropped => ItemsShape(v, i + 1, acc);
        case Value(t) => ItemsShape(v, i + 1, acc + [t]);
    }
  }

  lemma {:induction false} CompoundsShape(v: PyValue, i: nat, acc: seq<Nbt>)
    requires v.PList? && i <= |v.items|
    ensures ConvertCompounds(v, i, acc).Value? ==> ConvertCompounds(v, i, acc).tag.NList?
    decreases |v.items| - i
  {
    if i < |v.items| && v.items[i].PDict? {
      match ConvertEntries(v.items[i], 0, [])
        case Value(t) => CompoundsShape(v, i + 1, acc + [t]);
        case _ =>
    }
  }

  lemma {:induction false} CompoundsOutcome(v: PyValue, i: nat, acc: seq<Nbt>)
    requires v.PList? && i <= |v.items|
    ensures !ConvertCompounds(v, i, acc).Dropped?
    ensures ConvertCompounds(v, i, acc).Raises? <==>
      exists j :: i <= j < |v.items| && (!v.items[j].PDict? || !Regular(v.items[j]))
    decreases v, 0, |v.items| - i
  {
    if i < |v.items| && v.items[i].PDict? {
      ValueOutcome(v.items[i]);
      EntriesOutcome(v.items[i], 0, []);
      match ConvertEntries(v.items[i], 0, [])
        case Value(t) => CompoundsOutcome(v, i + 1, acc + [t]);
        case _ =>
    }
  }

  // ---------------------------------------------------------------------
  // Tags read back as Python values
  // ---------------------------------------------------------------------

  /** The Python value a tag is: nbtlib's tags subclass str, int, float,
      list and dict. */
  function ToPy(t: Nbt): PyValue
  {
    match t
      case NString(s) => PStr(s)
      case NInt(i) => PInt(i)
      case NByte(b) => PInt(b)
      case NFloat(f) => PFloat(f)
      case NList(items) => PList(seq(|items|, i requires 0 <= i < |items| => ToPy(items[i])))
      case NCompound(es) => PDict(seq(|es|, i requires 0 <= i < |es| => (es[i].0, ToPy(es[i].1))))
  }

  /** The tags the conversion can produce from values without None: no
      Byte, compounds with distinct keys, and lists whose items are all of
      one kind. */
  predicate Canonical(t: Nbt)
  {
    match t
      case NByte(_) => false
      case NList(items) =>
        Uniform(items) &&
        (forall i :: 0 <= i < |items| ==> Canonical(items[i]))
      case NCompound(es) => DistinctKeys(es) && forall i :: 0 <= i < |es| ==> Canonical(es[i].1)
      case _ => true
  }

  /** Converting a canonical tag, taken as a Python value, gives it back. */
  lemma {:induction false} RoundTrip(t: Nbt)
    requires Canonical(t)
    ensures ConvertValue(ToPy(t)) == Value(t)
    decreases t, 1
  {
    match t
      case NList(items) =>
        if |items| > 0 {
          if items[0].NCompound? {
            CompoundsRoundTrip(t, 0);
          } else {
            ItemsRoundTrip(t, 0);
          }
          assert items[..0] == [];
        }
      case NCompound(es) =>
        EntriesRoundTrip(t, 0);
        assert es[..0] == [];
      case _ =>
  }

  lemma {:induction false} EntriesRoundTrip(t: Nbt, i: nat)
    requires t.NCompound? && Canonical(t) && i <= |t.entries|
    ensures ToPy(t).PDict? && |ToPy(t).entries| == |t.entries|
    ensures ConvertEntries(ToPy(t), i, t.entries[..i]) == Value(t)
    decreases t, 0, |t.entries| - i
  {
    var es := t.entries;
    if i < |es| {
      var e := ToPy(t).entries[i];
      assert e == (es[i].0, ToPy(es[i].1));
      RoundTrip(es[i].1);
      assert es[i].0 !in Keys(es[..i]) by {
        forall p | p in es[..i] ensures p.0 != es[i].0 {
          var j :| 0 <= j < i && es[..i][j] == p;
        }
      }
      AssignFresh(es[..i], es[i].0, es[i].1);
      assert Assign(es[..i], es[i].0, es[i].1) == es[..i + 1];
      EntriesRoundTrip(t, i + 1);
    } else {
      assert es[..i] == es;
    }
  }

  lemma {:induction false} ItemsRoundTrip(t: Nbt, i: nat)
    requires t.NList? && Canonical(t) && i <= |t.items|
    ensures ToPy(t).PList? && |ToPy(t).items| == |t.items|
    ensures ConvertItems(ToPy(t), i, t.items[..i]) == Value(t)
    decreases t, 0, |t.items| - i
  {
    var xs := t.items;
    if i < |xs| {
      assert ToPy(t).items[i] == ToPy(xs[i]);
      RoundTrip(xs[i]);
      assert xs[..i] + [xs[i]] == xs[..i + 1];
      ItemsRoundTrip(t, i + 1);
    } else {
      assert xs[..i] == xs;
    }
  }

  lemma {:induction false} CompoundsRoundTrip(t: Nbt, i: nat)
    requires t.NList? && Canonical(t) && i <= |t.items|
    requires |t.items| > 0 && t.items[0].NCompound?
    ensures ToPy(t).PList? && |ToPy(t).items| == |t.items|
    ensures ConvertCompounds(ToPy(t), i, t.items[..i]) == Value(t)
    decreases t, 0, |t.items| - i
  {
    var xs := t.items;
    if i < |xs| {
      assert ToPy(t).items[i] == ToPy(xs[i]);
      EntriesRoundTrip(xs[i], 0);
      assert xs[i].entries[..0] == [];
      assert xs[..i] + [xs[i]] == xs[..i + 1];
      CompoundsRoundTrip(t, i + 1);
    } else {
      assert xs[..i] == xs;
    }
  }

  /** Without None the conversion yields canonical tags, and a compound
      exactly for a dict. */
  lemma {:induction false} ValueCanonical(v: PyValue)
    requires NoNone(v)
    ensures ConvertValue(v).Value? ==>
      Canonical(ConvertValue(v).tag) && (ConvertValue(v).tag.NCompound? <==> v.PDict?)
    decreases v, 1
  {
    match v
      case PList(items) =>
        if |items| > 0 {
          if items[0].PDict? { CompoundsCanonical(v, 0, []); } else { ItemsCanonical(v, 0, []); }
        }
      case PDict(_) => EntriesCanonical(v, 0, []);
      case _ =>
  }

  lemma {:induction false} EntriesCanonical(v: PyValue, i: nat, acc: seq<(string, Nbt)>)
    requires v.PDict? && i <= |v.entries| && NoNone(v)
    requires DistinctKeys(acc) && forall p :: p in acc ==> Canonical(p.1)
    ensures ConvertEntries(v, i, acc).Value? ==>
      ConvertEntries(v, i, acc).tag.NCompound? && Canonical(ConvertEntries(v, i, acc).tag)
    decreases v, 0, |v.entries| - i
  {
    if i < |v.entries| {
      var e := v.entries[i];
      ValueCanonical(e.1);
      ValueOutcome(e.1);
      if ConvertValue(e.1).Value? {
        AssignPairs(acc, e.0, ConvertValue(e.1).tag);
        AssignDistinct(acc, e.0, ConvertValue(e.1).tag);
        EntriesCanonical(v, i + 1, Assign(acc, e.0, ConvertValue(e.1).tag));
      }
    } else {
      forall j | 0 <= j < |acc| ensures Canonical(acc[j].1) {
        assert acc[j] in acc;
      }
    }
  }

  lemma {:induction false} ItemsCanonical(v: PyValue, i: nat, acc: seq<Nbt>)
    requires v.PList? && i <= |v.items| && NoNone(v)
    requires forall j :: 0 <= j < |acc| ==> Canonical(acc[j])
    ensures ConvertItems(v, i, acc).Value? ==>
      ConvertItems(v, i, acc).tag.NList? && Canonical(ConvertItems(v, i, acc).tag)
    decreases v, 0, |v.items| - i
  {
    if i < |v.items| {
      ValueCanonical(v.items[i]);
      ValueOutcome(v.items[i]);
      if ConvertValue(v.items[i]).Value? {
        ItemsCanonical(v, i + 1, acc + [ConvertValue(v.items[i]).tag]);
      }
    }
  }

  lemma {:induction false} CompoundsCanonical(v: PyValue, i: nat, acc: seq<Nbt>)
    requires v.PList? && i <= |v.items| && NoNone(v)
    requires forall j :: 0 <= j < |acc| ==> acc[j].NCompound? && Canonical(acc[j])
    ensures ConvertCompounds(v, i, acc).Value? ==>
      ConvertCompounds(v, i, acc).tag.NList? && Canonical(ConvertCompounds(v, i, acc).tag)
    decreases v, 0, |v.items| - i
  {
    if i < |v.items| && v.items[i].PDict? {
      EntriesCanonical(v.items[i], 0, []);
      match ConvertEntries(v.items[i], 0, [])
        case Value(t) => CompoundsCanonical(v, i + 1, acc + [t]);
        case _ =>
    }
  }

  /** Converting is idempotent on values read from NBT: a converted tag,
      converted again, comes back unchanged. */
  lemma Idempotent(v: PyValue)
    requires NoNone(v)
    ensures ConvertValue(v).Value? ==> ConvertValue(ToPy(ConvertValue(v).tag)) == ConvertValue(v)
  {
    ValueCanonical(v);
    if ConvertValue(v).Value? {
      RoundTrip(ConvertValue(v).tag);
    }
  }
}
