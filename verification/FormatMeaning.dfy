/// What the formats are, byte by byte: the cells, tokens and header of a devicetree blob (Devicetree
/// Specification v0.4, sections 5.2 to 5.5) and the little-endian words of the other formats.
module FormatMeaning {
  import opened Bytes
  import opened Tokens
  import opened Tree
  import opened Dtb
  import opened Contract

  /// Devicetree cells are big-endian, words elsewhere little-endian.
  lemma CellBytes(a: byte, b: byte, c: byte, d: byte)
    ensures De32([a, b, c, d]) == a * 0x100_0000 + b * 0x1_0000 + c * 0x100 + d
    ensures Le32([a, b, c, d]) == d * 0x100_0000 + c * 0x1_0000 + b * 0x100 + a
    ensures Be32(De32([a, b, c, d])) == [a, b, c, d]
    ensures ToLe32(Le32([a, b, c, d])) == [a, b, c, d]
  {
    Be32De32([a, b, c, d]);
    Be32De32([d, c, b, a]);
  }

  lemma WordBytes(hi: u32, lo: u32)
    ensures De64(Be32(hi) + Be32(lo)) == hi * 0x1_0000_0000 + lo
    ensures Le64(ToLe32(lo) + ToLe32(hi)) == hi * 0x1_0000_0000 + lo
  {
    De32Be32(hi);
    De32Be32(lo);
    var b, l := Be32(hi) + Be32(lo), ToLe32(lo) + ToLe32(hi);
    assert b[..4] == Be32(hi) && b[4..] == Be32(lo);
    assert [l[7], l[6], l[5], l[4], l[3], l[2], l[1], l[0]] == b;
    hide Bytes.Be32, Bytes.De32;
  }

  /// Text is its ASCII codes.
  lemma AsciiBytes(s: string, i: nat)
    requires i < |s| && (s[i] as int) < 0x100
    ensures |Ascii(s)| == |s| && Ascii(s)[i] == s[i] as int
  {
  }

  /// The tokens of the structure block.
  lemma TokenBytes(t: Token)
    requires Wf(t)
    ensures
      Enc(t) ==
      match t
      case Begin(name, pad) => [0, 0, 0, 1] + name + [0] + pad
      case End => [0, 0, 0, 2]
      case Prop(nameoff, value, pad) => [0, 0, 0, 3] + Be32(|value|) + Be32(nameoff) + value + pad
      case Nop => [0, 0, 0, 4]
      case Fin => [0, 0, 0, 9]
    ensures |Enc(t)| % 4 == 0
    ensures t.Begin? ==> |t.pad| < 4
    ensures t.Prop? ==> |t.pad| < 4
  {
    EncLength(t);
    assert Be32(1) == [0, 0, 0, 1] && Be32(2) == [0, 0, 0, 2] && Be32(3) == [0, 0, 0, 3];
    assert Be32(4) == [0, 0, 0, 4] && Be32(9) == [0, 0, 0, 9];
    hide Bytes.Be32;
  }

  /// A number of the header, which has ten.
  function Number(dtb: bytes, offset: nat): u32
    requires offset + 4 <= |dtb|
  {
    De32(dtb[offset..offset + 4])
  }

  /// Where the header has its numbers, and when it is accepted.
  lemma HeaderBytes(dtb: bytes)
    ensures ParseHeader(dtb).Ok? <==>
      && |dtb| >= 40 && dtb[..4] == [0xd0, 0x0d, 0xfe, 0xed]
      && 40 <= Number(dtb, 4) <= |dtb|
      && Number(dtb, 8) + Number(dtb, 36) <= Number(dtb, 4)
      && Number(dtb, 12) + Number(dtb, 32) <= Number(dtb, 4)
      && Number(dtb, 16) < Number(dtb, 4)
    ensures ParseHeader(dtb).Ok? ==>
      && StructBlock(dtb) == Ok(dtb[Number(dtb, 8)..Number(dtb, 8) + Number(dtb, 36)])
      && StringsBlock(dtb) == Ok(dtb[Number(dtb, 12)..Number(dtb, 12) + Number(dtb, 32)])
      && ParseHeader(dtb).value.offMemRsvmap == Number(dtb, 16)
      && ParseHeader(dtb).value.totalsize == Number(dtb, 4)
      && ParseHeader(dtb).value.version == Number(dtb, 20)
      && ParseHeader(dtb).value.lastCompVersion == Number(dtb, 24)
      && ParseHeader(dtb).value.bootCpuidPhys == Number(dtb, 28)
  {
    if |dtb| >= 40 {
      MagicBytes(dtb[..4]);
      assert dtb[0..4] == dtb[..4];
    }
    hide Bytes.De32;
  }

  /// A blob that was built from another has the version, the compatible version and the boot CPU of that
  /// one, its own length as its size, and its reservation map right behind the header.
  predicate HeaderKept(out: bytes, dtb: bytes) {
    && |dtb| >= 40 && |out| >= 40 && out[..4] == [0xd0, 0x0d, 0xfe, 0xed]
    && Number(out, 4) == |out| && Number(out, 16) == 40
    && Number(out, 20) == Number(dtb, 20) && Number(out, 24) == Number(dtb, 24) && Number(out, 28) == Number(dtb, 28)
  }

  lemma BuiltHeader(dtb: bytes, reserveMap: bytes, structure: bytes, strings: bytes)
    requires ParseHeader(dtb).Ok? && (reserveMap != [] || ReserveMap(dtb) == Ok(reserveMap))
    requires BuildDtb(ParseHeader(dtb).value, reserveMap, structure, strings).Ok?
    ensures HeaderKept(BuildDtb(ParseHeader(dtb).value, reserveMap, structure, strings).value, dtb)
  {
    hide Bytes.De32, ParseHeader, BuildDtb, MapEnd;
    assert reserveMap != [];
    HeaderBytes(dtb);
    BuiltBlocks(ParseHeader(dtb).value, reserveMap, structure, strings);
    HeaderBytes(BuildDtb(ParseHeader(dtb).value, reserveMap, structure, strings).value);
  }

  lemma MagicBytes(b: bytes)
    requires |b| == 4
    ensures De32(b) == 0xd00dfeed <==> b == [0xd0, 0x0d, 0xfe, 0xed]
  {
    Be32De32(b);
    CellBytes(0xd0, 0x0d, 0xfe, 0xed);
    hide Bytes.Be32, Bytes.De32;
  }
}
