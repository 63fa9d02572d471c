/** Block-state strings: the canonical `id` / `id[k=v,...]` text a palette is
    keyed by, built from a block id and its property dictionary with the keys
    in sorted order, and the palette-entry parser that splits such a string
    back into a name and a property compound. */
module StateString {
  import opened Common

  /** A property dictionary in insertion order: (key, value) pairs with
      distinct keys. */
  type Props = seq<(string, string)>

  /** A litemapy block state: an id such as `minecraft:oak_stairs` and its
      properties. */
  datatype BlockState = BlockState(id: string, props: Props)

  // ---------------------------------------------------------------------
  // Python's ordering of str: lexicographic by code point.
  // ---------------------------------------------------------------------

  predicate StrLt(a: string, b: string)
  {
    if |a| == 0 then |b| > 0
    else if |b| == 0 then false
    else if a[0] < b[0] then true
    else if a[0] == b[0] then StrLt(a[1..], b[1..])
    else false
  }

  lemma {:induction false} StrLtIrreflexive(a: string)
    ensures !StrLt(a, a)
  {
    if |a| > 0 {
      StrLtIrreflexive(a[1..]);
    }
  }

  lemma {:induction false} StrLtTransitive(a: string, b: string, c: string)
    requires StrLt(a, b) && StrLt(b, c)
    ensures StrLt(a, c)
  {
    if |a| > 0 && |b| > 0 && |c| > 0 && a[0] == b[0] && b[0] == c[0] {
      StrLtTransitive(a[1..], b[1..], c[1..]);
    }
  }

  lemma {:induction false} StrLtTotal(a: string, b: string)
    requires a != b
    ensures StrLt(a, b) || StrLt(b, a)
  {
    if |a| > 0 && |b| > 0 && a[0] == b[0] {
      assert a == [a[0]] + a[1..] && b == [b[0]] + b[1..];
      StrLtTotal(a[1..], b[1..]);
    }
  }

  lemma {:induction false} StrLtAsymmetric(a: string, b: string)
    requires StrLt(a, b)
    ensures !StrLt(b, a)
  {
    if |a| > 0 && |b| > 0 && a[0] == b[0] {
      StrLtAsymmetric(a[1..], b[1..]);
    }
  }

  // ---------------------------------------------------------------------
  // sorted(props.items())
  // ---------------------------------------------------------------------

  /** Keys strictly increasing. */
  predicate SortedKeys(s: Props)
  {
    forall i, j :: 0 <= i < j < |s| ==> StrLt(s[i].0, s[j].0)
  }

  function Insert(x: (string, string), s: Props): (r: Props)
  {
    if |s| == 0 then [x]
    else if StrLt(x.0, s[0].0) || x.0 == s[0].0 then [x] + s
    else [s[0]] + Insert(x, s[1..])
  }

  /** Inserting adds exactly the one item. */
  lemma {:induction false} InsertItems(x: (string, string), s: Props)
    ensures multiset(Insert(x, s)) == multiset(s) + multiset{x}
    ensures Keys(Insert(x, s)) == Keys(s) + {x.0}
    ensures |Insert(x, s)| == |s| + 1
  {
    if |s| == 0 {
      KeysCons(x, s);
    } else if StrLt(x.0, s[0].0) || x.0 == s[0].0 {
      KeysCons(x, s);
    } else {
      var t := s[1..];
      assert s == [s[0]] + t;
      InsertItems(x, t);
      KeysCons(s[0], t);
      KeysCons(s[0], Insert(x, t));
    }
  }

  /** A list stays key-sorted when an item with a smaller key goes in front. */
  lemma ConsSorted(x: (string, string), s: Props)
    requires SortedKeys(s)
    requires forall i :: 0 <= i < |s| ==> StrLt(x.0, s[i].0)
    ensures SortedKeys([x] + s)
  {
    var r := [x] + s;
    forall i, j | 0 <= i < j < |r| ensures StrLt(r[i].0, r[j].0) {
      if i > 0 { assert r[i] == s[i - 1] && r[j] == s[j - 1]; }
    }
  }

  lemma {:induction false} InsertSorted(x: (string, string), s: Props)
    requires SortedKeys(s) && x.0 !in Keys(s)
    ensures SortedKeys(Insert(x, s))
  {
    if |s| == 0 {
    } else if StrLt(x.0, s[0].0) || x.0 == s[0].0 {
      assert s[0].0 in Keys(s);
      forall i | 0 <= i < |s| ensures StrLt(x.0, s[i].0) {
        if i > 0 { StrLtTransitive(x.0, s[0].0, s[i].0); }
      }
      ConsSorted(x, s);
    } else {
      var t := s[1..];
      assert s == [s[0]] + t;
      KeysCons(s[0], t);
      InsertSorted(x, t);
      StrLtTotal(x.0, s[0].0);
      forall i | 0 <= i < |t| ensures StrLt(s[0].0, t[i].0) {
        assert t[i] == s[i + 1];
      }
      InsertAbove(s[0].0, x, t);
      ConsSorted(s[0], Insert(x, t));
    }
  }

  /** A key below the new item's and below every key of the list stays
      below every key after the insertion. */
  lemma InsertAbove(y: string, x: (string, string), t: Props)
    requires StrLt(y, x.0)
    requires forall i :: 0 <= i < |t| ==> StrLt(y, t[i].0)
    ensures forall i :: 0 <= i < |Insert(x, t)| ==> StrLt(y, Insert(x, t)[i].0)
  {
    InsertItems(x, t);
    var it := Insert(x, t);
    forall i | 0 <= i < |it| ensures StrLt(y, it[i].0) {
      assert it[i] in multiset(it);
      if it[i] != x {
        assert it[i] in multiset(t);
        var m :| 0 <= m < |t| && t[m] == it[i];
      }
    }
  }

  /** Insertion sort by key: `sorted(props.items())` of a dictionary. */
  function SortProps(s: Props): (r: Props)
  {
    if |s| == 0 then [] else Insert(s[0], SortProps(s[1..]))
  }

  /** The sorted list is a permutation of the dictionary's items, in strictly
      increasing key order, over the same keys. */
  lemma {:induction false} SortPropsFacts(s: Props)
    requires DistinctKeys(s)
    ensures multiset(SortProps(s)) == multiset(s)
    ensures SortedKeys(SortProps(s))
    ensures Keys(SortProps(s)) == Keys(s)
    ensures |SortProps(s)| == |s|
  {
    if |s| > 0 {
      var t := s[1..];
      SortPropsFacts(t);
      forall p | p in t ensures p.0 != s[0].0 {
        var i :| 0 <= i < |t| && t[i] == p;
        assert t[i] == s[i + 1];
      }
      assert s[0].0 !in Keys(t);
      InsertItems(s[0], SortProps(t));
      InsertSorted(s[0], SortProps(t));
      assert s == [s[0]] + t;
      KeysCons(s[0], t);
    }
  }

  /** Two key-sorted lists holding the same items are the same list. */
  lemma {:induction false} SortedUnique(a: Props, b: Props)
    requires SortedKeys(a) && SortedKeys(b)
    requires multiset(a) == multiset(b)
    ensures a == b
    decreases |a|
  {
    if |a| == 0 {
      assert |b| == |multiset(b)| == 0;
    } else {
      SortedHeads(a, b);
      MultisetTail(a, b);
      SortedUnique(a[1..], b[1..]);
      assert a == [a[0]] + a[1..] && b == [b[0]] + b[1..];
    }
  }

  /** In a key-sorted list the first item's key is the least. */
  lemma SortedFirst(s: Props, i: nat)
    requires SortedKeys(s) && i < |s|
    ensures i == 0 || StrLt(s[0].0, s[i].0)
  {
  }

  /** Key-sorted lists holding the same items start with the same item. */
  lemma SortedHeads(a: Props, b: Props)
    requires SortedKeys(a) && SortedKeys(b)
    requires multiset(a) == multiset(b) && |a| > 0
    ensures |b| > 0 && a[0] == b[0]
  {
    assert a[0] in multiset(b);
    assert b[0] in multiset(a);
    var i :| 0 <= i < |b| && b[i] == a[0];
    var j :| 0 <= j < |a| && a[j] == b[0];
    SortedFirst(b, i);
    SortedFirst(a, j);
    if StrLt(b[0].0, a[0].0) {
      StrLtAsymmetric(b[0].0, a[0].0);
    }
  }

  /** Equal multisets with equal first items have equal tails. */
  lemma MultisetTail<T>(a: seq<T>, b: seq<T>)
    requires |a| > 0 && |b| > 0 && a[0] == b[0] && multiset(a) == multiset(b)
    ensures multiset(a[1..]) == multiset(b[1..])
  {
    assert a == [a[0]] + a[1..] && b == [b[0]] + b[1..];
    assert multiset(a) == multiset([a[0]]) + multiset(a[1..]);
    assert multiset(b) == multiset([b[0]]) + multiset(b[1..]);
    assert multiset(a[1..]) == multiset(a) - multiset{a[0]};
    assert multiset(b[1..]) == multiset(b) - multiset{b[0]};
  }

  // ---------------------------------------------------------------------
  // ','.join and str.split
  // ---------------------------------------------------------------------

  /** `sep.join(xs)`. */
  function Join(xs: seq<string>, sep: char): string
  {
    if |xs| == 0 then ""
    else if |xs| == 1 then xs[0]
    else xs[0] + [sep] + Join(xs[1..], sep)
  }

  /** `s.split(sep)` with a one-character separator: always at least one
      piece; the pieces never contain the separator. */
  function Split(s: string, sep: char): (r: seq<string>)
    ensures |r| >= 1
    ensures forall i :: 0 <= i < |r| ==> sep !in r[i]
    decreases |s|
  {
    if sep !in s then [s]
    else
      var i := IndexOf(s, sep);
      [s[..i]] + Split(s[i + 1..], sep)
  }

  /** Splitting a join of separator-free pieces gives the pieces back. */
  lemma {:induction false} SplitJoin(xs: seq<string>, sep: char)
    requires |xs| >= 1
    requires forall i :: 0 <= i < |xs| ==> sep !in xs[i]
    ensures Split(Join(xs, sep), sep) == xs
  {
    if |xs| > 1 {
      SplitAtFirst(xs[0], sep, Join(xs[1..], sep));
      SplitJoin(xs[1..], sep);
    }
  }

  /** The first separator of `a + [sep] + rest`, when `a` has none, is the
      one after `a`, so the split takes `a` off the front. */
  lemma SplitAtFirst(a: string, sep: char, rest: string)
    requires sep !in a
    ensures Split(a + [sep] + rest, sep) == [a] + Split(rest, sep)
  {
    var s := a + [sep] + rest;
    assert s[|a|] == sep;
    forall j | 0 <= j < |a| ensures s[j] != sep {
      assert s[j] == a[j];
    }
    var i := IndexOf(s, sep);
    assert i == |a|;
    assert s[..i] == a;
    assert s[i + 1..] == rest;
  }

  /** `s.split(sep, 1)` unpacked into two names: fails (a ValueError in
      Python) when sep does not occur. */
  function SplitOnce(s: string, sep: char): (r: Option<(string, string)>)
    ensures r.None? <==> sep !in s
    ensures r.Some? ==> r.value.0 + [sep] + r.value.1 == s && sep !in r.value.0
  {
    if sep !in s then None
    else
      var i := IndexOf(s, sep);
      assert s == s[..i] + [sep] + s[i + 1..];
      Some((s[..i], s[i + 1..]))
  }

  lemma SplitOnceOf(a: string, sep: char, b: string)
    requires sep !in a
    ensures SplitOnce(a + [sep] + b, sep) == Some((a, b))
  {
    var s := a + [sep] + b;
    assert s[|a|] == sep;
    forall j | 0 <= j < |a| ensures s[j] != sep {
      assert s[j] == a[j];
    }
    var i := IndexOf(s, sep);
    assert i == |a|;
    assert s[..i] == a;
    assert s[i + 1..] == b;
  }

  // ---------------------------------------------------------------------
  // get_block_state_string
  // ---------------------------------------------------------------------

  function PropText(p: (string, string)): string
  {
    p.0 + "=" + p.1
  }

  /** The `k=v` texts of a list of properties. */
  function Texts(s: Props): (r: seq<string>)
    ensures |r| == |s|
    ensures forall i :: 0 <= i < |s| ==> r[i] == PropText(s[i])
  {
    if |s| == 0 then [] else [PropText(s[0])] + Texts(s[1..])
  }

  /** The text of a block state: the name alone when there are no
      properties, otherwise `name[k=v,...]` with the items sorted by key. */
  function FormatState(name: string, props: Props): string
  {
    if |props| == 0 then name
    else
      var sorted := SortProps(props);
      name + "[" + Join(Texts(sorted), ',') + "]"
  }

  /** `get_block_state_string(block)` of the blueprint converter. */
  function BlockStateString(b: BlockState): string
  {
    FormatState(b.id, b.props)
  }

  /** The state text depends only on the set of properties, never on the
      order in which the dictionary holds them. */
  lemma FormatOrderIndependent(name: string, p: Props, q: Props)
    requires DistinctKeys(p) && DistinctKeys(q)
    requires multiset(p) == multiset(q)
    ensures FormatState(name, p) == FormatState(name, q)
  {
    SortPropsFacts(p);
    SortPropsFacts(q);
    SortedUnique(SortProps(p), SortProps(q));
    assert |p| == |multiset(p)| == |multiset(q)| == |q|;
  }

  // ---------------------------------------------------------------------
  // The palette-entry parse of create_block_data_nbt
  // ---------------------------------------------------------------------

  /** One palette compound: `Name`, and `Properties` when the state had a
      bracketed suffix (possibly an empty compound for `name[]`). */
  datatype PaletteEntry = PaletteEntry(name: string, properties: Option<Props>)

  /** Fill a compound from `k=v` pieces; a piece without `=` fails. */
  function ParseProps(pieces: seq<string>, acc: Props): Option<Props>
  {
    if |pieces| == 0 then Some(acc)
    else match SplitOnce(pieces[0], '=')
      case None => None
      case Some(kv) => ParseProps(pieces[1..], Assign(acc, kv.0, kv.1))
  }

  /** The palette-entry parse: a state containing `[` and ending in `]` is
      split at its first `[`; the inside, unless empty, is split on `,` and
      each piece on its first `=`. None is the ValueError of a piece without
      `=`. */
  function ParseEntry(s: string): (r: Option<PaletteEntry>)
    ensures r.None? ==> '[' in s && s[|s| - 1] == ']'
    ensures !('[' in s && s[|s| - 1] == ']') ==> r == Some(PaletteEntry(s, None))
    ensures r.Some? && r.value.properties.Some? ==>
      '[' !in r.value.name && |r.value.name| < |s| && s[..|r.value.name| + 1] == r.value.name + ['[']
  {
    if '[' in s && |s| > 0 && s[|s| - 1] == ']' then
      var nr := SplitOnce(s, '[').value;
      assert s[..|nr.0| + 1] == nr.0 + ['['];
      ParseBracket(nr.0, nr.1[..|nr.1| - 1])
    else Some(PaletteEntry(s, None))
  }

  /** The bracketed case: the name before the first `[` and the text
      between it and the final `]`. */
  function ParseBracket(name: string, inner: string): (r: Option<PaletteEntry>)
    ensures r.Some? ==> r.value.name == name && r.value.properties.Some?
  {
    if |inner| == 0 then Some(PaletteEntry(name, Some([])))
    else match ParseProps(Split(inner, ','), [])
      case None => None
      case Some(props) => Some(PaletteEntry(name, Some(props)))
  }

  /** A property value holding a comma is written as is:
      `name[k=v1,v2]` for the one property `k = "v1,v2"`. */
  lemma CommaValueFormat(name: string, k: string, v1: string, v2: string)
    ensures BlockStateString(BlockState(name, [(k, v1 + [','] + v2)])) ==
      name + ['['] + k + ['='] + v1 + [','] + v2 + [']']
  {
    var props := [(k, v1 + [','] + v2)];
    assert props[1..] == [];
    assert SortProps(props) == props;
    assert Texts(props) == [PropText(props[0])] + Texts(props[1..]);
  }

  /** Reading `name[k=v1,v2]` back splits the value at its comma, and the
      piece `v2` has no `=`, so the parse raises ValueError: a property
      value with a comma and no `=` after it is never read back. */
  lemma CommaValueRejected(name: string, k: string, v1: string, v2: string)
    requires '[' !in name && ',' !in k && ',' !in v1 && ',' !in v2 && '=' !in v2
    ensures ParseEntry(name + ['['] + k + ['='] + v1 + [','] + v2 + [']']).None?
  {
    var piece := k + ['='] + v1;
    var inner := piece + [','] + v2;
    var rest := inner + [']'];
    var s := name + ['['] + k + ['='] + v1 + [','] + v2 + [']'];
    assert s == name + ['['] + rest;
    SplitOnceOf(name, '[', rest);
    assert rest[..|rest| - 1] == inner;
    assert ',' !in piece;
    SplitAtFirst(piece, ',', v2);
    assert Split(v2, ',') == [v2];
    assert piece[|k|] == '=';
    var kv := SplitOnce(piece, '=').value;
    assert ParseProps([piece, v2], []) == ParseProps([v2], Assign([], kv.0, kv.1));
  }

  /** A state can be written and read back when the id has no `[`, no key
      holds `=` or `,`, and no value holds `,`. */
  predicate Parseable(name: string, props: Props)
  {
    '[' !in name &&
    forall i :: 0 <= i < |props| ==>
      '=' !in props[i].0 && ',' !in props[i].0 && ',' !in props[i].1
  }

  lemma {:induction false} ParsePropsOfTexts(s: Props, acc: Props)
    requires DistinctKeys(acc + s)
    requires forall i :: 0 <= i < |s| ==> '=' !in s[i].0
    ensures ParseProps(Texts(s), acc) == Some(acc + s)
  {
    if |s| > 0 {
      SplitOnceOf(s[0].0, '=', s[0].1);
      assert Texts(s)[0] == s[0].0 + ['='] + s[0].1;
      FreshHead(acc, s);
      var acc' := Assign(acc, s[0].0, s[0].1);
      AssignFresh(acc, s[0].0, s[0].1);
      assert acc' == acc + [s[0]];
      assert Texts(s)[1..] == Texts(s[1..]);
      ParsePropsOfTexts(s[1..], acc');
      assert SplitOnce(Texts(s)[0], '=') == Some((s[0].0, s[0].1));
      assert ParseProps(Texts(s), acc) == ParseProps(Texts(s[1..]), acc');
    } else {
      assert acc + s == acc;
    }
  }

  /** The next item's key is not among the ones already parsed. */
  lemma FreshHead(acc: Props, s: Props)
    requires DistinctKeys(acc + s) && |s| > 0
    ensures s[0].0 !in Keys(acc)
    ensures (acc + [s[0]]) + s[1..] == acc + s
  {
    forall p | p in acc ensures p.0 != s[0].0 {
      var i :| 0 <= i < |acc| && acc[i] == p;
      assert (acc + s)[i] == acc[i] && (acc + s)[|acc|] == s[0];
    }
    assert s == [s[0]] + s[1..];
  }

  /** A bracketed state is parsed by splitting its inside on commas. */
  lemma ParseBracketed(name: string, inner: string)
    requires '[' !in name
    ensures ParseEntry(name + "[" + inner + "]") == ParseBracket(name, inner)
  {
    var s := name + "[" + inner + "]";
    assert s == name + ['['] + (inner + "]");
    assert s[|s| - 1] == ']';
    assert s[|name|] == '[';
    SplitOnceOf(name, '[', inner + "]");
    var nr := SplitOnce(s, '[').value;
    assert nr == (name, inner + "]");
    assert nr.1[..|nr.1| - 1] == inner;
  }

  /** Every item of the sorted list is parseable when the input is. */
  lemma SortedParseable(name: string, props: Props)
    requires DistinctKeys(props) && Parseable(name, props)
    ensures Parseable(name, SortProps(props))
    ensures DistinctKeys(SortProps(props))
    ensures |SortProps(props)| == |props|
  {
    var sorted := SortProps(props);
    SortPropsFacts(props);
    forall i | 0 <= i < |sorted|
      ensures '=' !in sorted[i].0 && ',' !in sorted[i].0 && ',' !in sorted[i].1
    {
      assert sorted[i] in multiset(props);
      var j :| 0 <= j < |props| && props[j] == sorted[i];
    }
    forall i, j | 0 <= i < j < |sorted| ensures sorted[i].0 != sorted[j].0 {
      StrLtIrreflexive(sorted[i].0);
    }
  }

  /** The joined property texts of a parseable list split back into the
      texts, and the inside of the brackets is never empty. */
  lemma TextsSplit(props: Props)
    requires |props| > 0
    requires forall i :: 0 <= i < |props| ==> ',' !in props[i].0 && ',' !in props[i].1
    ensures Split(Join(Texts(props), ','), ',') == Texts(props)
    ensures |Join(Texts(props), ',')| > 0
  {
    var texts := Texts(props);
    forall i | 0 <= i < |texts| ensures ',' !in texts[i] {
      assert texts[i] == props[i].0 + "=" + props[i].1;
    }
    assert |texts[0]| >= 1;
    JoinNonEmpty(texts, ',');
    SplitJoin(texts, ',');
  }

  lemma ParseFormatted(name: string, props: Props)
    requires |props| > 0 && DistinctKeys(props) && Parseable(name, props)
    ensures ParseEntry(FormatState(name, props)) == Some(PaletteEntry(name, Some(SortProps(props))))
  {
    var sorted := SortProps(props);
    SortedParseable(name, props);
    TextsSplit(sorted);
    var inner := Join(Texts(sorted), ',');
    assert FormatState(name, props) == name + "[" + inner + "]";
    ParseBracketed(name, inner);
    assert [] + sorted == sorted;
    ParsePropsOfTexts(sorted, []);
  }

  /** Parse inverts formatting: the entry carries the id, and the properties
      in sorted key order (none when the state had none). */
  lemma ParseFormat(name: string, props: Props)
    requires DistinctKeys(props) && Parseable(name, props)
    ensures ParseEntry(FormatState(name, props))
      == Some(PaletteEntry(name, if |props| == 0 then None else Some(SortProps(props))))
  {
    if |props| > 0 {
      ParseFormatted(name, props);
    }
  }

  lemma {:induction false} JoinNonEmpty(xs: seq<string>, sep: char)
    requires |xs| >= 1
    ensures |Join(xs, sep)| >= |xs[0]|
    ensures |xs| > 1 ==> |Join(xs, sep)| > 0
  {
  }

  /** The palette entries of one chunk, in id order (the palette holds the
      state of id i at position i). */
  function PaletteEntries(palette: seq<string>): (r: seq<Option<PaletteEntry>>)
    ensures |r| == |palette|
    ensures forall i :: 0 <= i < |r| ==> r[i] == ParseEntry(palette[i])
  {
    seq(|palette|, i requires 0 <= i < |palette| => ParseEntry(palette[i]))
  }
}
