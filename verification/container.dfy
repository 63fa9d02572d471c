/** The blueprint file layout written by `write_bp_file`: a big-endian u32
    magic number, then the header NBT, the thumbnail PNG and the gzipped
    block-data NBT, each preceded by its length as a big-endian u32. The
    three sections are opaque bytes here; producing them (nbtlib, gzip,
    PIL, temporary files) is not part of this model. */
module Container {
  import opened Common
  import opened Bits

  /** `MAGIC_NUMBER`. */
  const Magic: nat := 182827830

  datatype Sections = Sections(header: seq<Byte>, thumbnail: seq<Byte>, blockData: seq<Byte>)

  /** `struct.pack('>I', n)`, which raises for a value that does not fit. */
  function PackU32(n: nat): Option<seq<Byte>>
  {
    if n < U32Limit then Some(U32BE(n)) else None
  }

  /** One length-prefixed section. */
  function Framed(bs: seq<Byte>): Option<seq<Byte>>
  {
    match PackU32(|bs|)
      case None => None
      case Some(prefix) => Some(prefix + bs)
  }

  predicate Fits(s: Sections)
  {
    |s.header| < U32Limit && |s.thumbnail| < U32Limit && |s.blockData| < U32Limit
  }

  /** What ends up in the file, and whether the function returned normally.
      The file is opened for writing before anything is packed, so when a
      length does not fit the file keeps whatever was written before the
      failing `struct.pack`. The write succeeds exactly when every
      section's length fits in a u32, and the file then holds 16 bytes of
      framing and the three sections. */
  function WriteBp(s: Sections): (r: (seq<Byte>, bool))
    ensures r.1 <==> Fits(s)
    ensures r.1 ==> |r.0| == 16 + |s.header| + |s.thumbnail| + |s.blockData|
    ensures |r.0| >= 4 && r.0[..4] == U32BE(Magic)
    ensures |s.header| >= U32Limit ==> r.0 == U32BE(Magic)
    ensures |s.header| < U32Limit && |s.thumbnail| >= U32Limit ==>
      r.0 == U32BE(Magic) + U32BE(|s.header|) + s.header
    ensures |s.header| < U32Limit && |s.thumbnail| < U32Limit && |s.blockData| >= U32Limit ==>
      r.0 == U32BE(Magic) + U32BE(|s.header|) + s.header + U32BE(|s.thumbnail|) + s.thumbnail
  {
    var head := U32BE(Magic);
    match Framed(s.header)
      case None => (head, false)
      case Some(h) =>
        match Framed(s.thumbnail)
          case None => (head + h, false)
          case Some(t) =>
            match Framed(s.blockData)
              case None => (head + h + t, false)
              case Some(b) => (head + h + t + b, true)
  }

  /** The reader's side: split a length-prefixed section off the front. */
  function ReadFramed(bs: seq<Byte>): (r: Option<(seq<Byte>, seq<Byte>)>)
    ensures r.Some? ==> |r.value.1| < |bs|
  {
    if |bs| < 4 then None
    else
      var n := ReadU32BE(bs[..4]);
      if |bs| - 4 < n then None else Some((bs[4..4 + n], bs[4 + n..]))
  }

  /** The three sections and nothing after them. */
  function ReadSections(bs: seq<Byte>): Option<Sections>
  {
    match ReadFramed(bs)
      case None => None
      case Some((h, r1)) =>
        match ReadFramed(r1)
          case None => None
          case Some((t, r2)) =>
            match ReadFramed(r2)
              case None => None
              case Some((b, r3)) => if |r3| == 0 then Some(Sections(h, t, b)) else None
  }

  /** Read a whole blueprint file: the magic, then the sections. */
  function ReadBp(bs: seq<Byte>): Option<Sections>
  {
    if |bs| < 4 || ReadU32BE(bs[..4]) != Magic then None else ReadSections(bs[4..])
  }

  /** The bytes after the magic: each section with its length in front. */
  function Body(s: Sections): seq<Byte>
    requires Fits(s)
  {
    U32BE(|s.header|) + s.header + (U32BE(|s.thumbnail|) + s.thumbnail + (U32BE(|s.blockData|) + s.blockData + []))
  }

  lemma ReadFramedOf(bs: seq<Byte>, rest: seq<Byte>)
    requires |bs| < U32Limit
    ensures ReadFramed(U32BE(|bs|) + bs + rest) == Some((bs, rest))
  {
    var all := U32BE(|bs|) + bs + rest;
    assert all[..4] == U32BE(|bs|);
    U32RoundTrip(|bs|);
    assert all[4..4 + |bs|] == bs;
    assert all[4 + |bs|..] == rest;
  }

  lemma ReadSectionsOf(s: Sections)
    requires Fits(s)
    ensures ReadSections(Body(s)) == Some(s)
  {
    var b := U32BE(|s.blockData|) + s.blockData + [];
    var t := U32BE(|s.thumbnail|) + s.thumbnail + b;
    ReadFramedOf(s.header, t);
    ReadFramedOf(s.thumbnail, b);
    ReadFramedOf(s.blockData, []);
  }

  lemma WriteBpBody(s: Sections)
    requires Fits(s)
    ensures WriteBp(s).0 == U32BE(Magic) + Body(s)
  {
    var h := U32BE(|s.header|) + s.header;
    var t := U32BE(|s.thumbnail|) + s.thumbnail;
    var b := U32BE(|s.blockData|) + s.blockData;
    assert Body(s) == h + t + b;
  }

  /** Reading back a written file gives the three sections. */
  lemma ReadWrite(s: Sections)
    requires Fits(s)
    ensures ReadBp(WriteBp(s).0) == Some(s)
  {
    var out := WriteBp(s).0;
    WriteBpBody(s);
    assert out[..4] == U32BE(Magic) && out[4..] == Body(s);
    U32RoundTrip(Magic);
    ReadSectionsOf(s);
  }

  lemma FramedOfRead(bs: seq<Byte>)
    requires ReadFramed(bs).Some?
    ensures |ReadFramed(bs).value.0| < U32Limit
    ensures U32BE(|ReadFramed(bs).value.0|) + ReadFramed(bs).value.0 + ReadFramed(bs).value.1 == bs
  {
    U32Surjective(bs[..4]);
    assert bs == bs[..4] + bs[4..];
  }

  lemma BodyOfRead(bs: seq<Byte>)
    requires ReadSections(bs).Some?
    ensures Fits(ReadSections(bs).value) && Body(ReadSections(bs).value) == bs
  {
    var r1 := ReadFramed(bs).value.1;
    var r2 := ReadFramed(r1).value.1;
    FramedOfRead(bs);
    FramedOfRead(r1);
    FramedOfRead(r2);
  }

  /** Every file the reader accepts is exactly what writing its sections
      produces, so the layout has no slack: two different section triples
      never give the same file. */
  lemma WriteRead(bs: seq<Byte>)
    requires ReadBp(bs).Some?
    ensures Fits(ReadBp(bs).value) && WriteBp(ReadBp(bs).value) == (bs, true)
  {
    var s := ReadBp(bs).value;
    BodyOfRead(bs[4..]);
    WriteBpBody(s);
    U32Surjective(bs[..4]);
    assert bs == bs[..4] + bs[4..];
  }
}
