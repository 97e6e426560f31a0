/// The page format of the RAM trace, offset by offset, and the decoder's answers in these terms
/// (`pocketpreboot/src/ram_trace.rs`, `tools/preboot_ram_trace.py`).
module TraceMeaning {
  import opened Bytes
  import opened RamTrace

  // The checksum: FNV-1a with 64 bits.

  lemma ChecksumMeaning(text: bytes, b: byte)
    ensures Checksum([]) == 0xcbf2_9ce4_8422_2325
    ensures
      var low := Checksum(text) % 0x100;
      Checksum(text + [b]) == (Checksum(text) - low + ((low as bv8) ^ (b as bv8)) as int) * 0x100_0000_01b3 % U64_LIMIT
  {
    ChecksumSnoc(text, b);
    hide Checksum;
    NoChecksum();
  }

  lemma NoChecksum()
    ensures Checksum([]) == 0xcbf2_9ce4_8422_2325
  {
  }

  // Pages.

  /// The page holds this text: the magic, the length at 16, the checksum at 72 and the text at 128.
  predicate Reads(page: bytes, text: bytes) {
    && |page| >= 128 && page[..8] == Ascii("PBTRACE1")
    && Le64(page[16..24]) == |text| && 128 + |text| <= |page| && page[128..128 + |text|] == text
    && Le64(page[72..80]) == Checksum(text)
  }

  lemma PageMeaning(page: bytes, text: bytes)
    requires |page| >= 128
    ensures PageText(page) == Some(text) <==> Reads(page, text)
    ensures StageOf(page) == Le64(page[8..16])
    ensures Records(page, text) <==> |page| == 4096 && Reads(page, text)
  {
    hide Bytes.Le64, Checksum, Bytes.Ascii;
  }

  /// At most one text.
  lemma ReadsOne(page: bytes, text: bytes, other: bytes)
    requires Reads(page, text) && Reads(page, other)
    ensures text == other
  {
    hide Bytes.Le64, Checksum, Bytes.Ascii;
  }

  // The decoder.

  /// Bit by bit, what two of the three copies say, ...
  predicate IsMajority(m: bytes, a: bytes, b: bytes, c: bytes) {
    && |m| == |a| == |b| == |c|
    && forall i :: 0 <= i < |m| ==>
         m[i] == (((a[i] as bv8) & (b[i] as bv8)) | ((a[i] as bv8) & (c[i] as bv8)) | ((b[i] as bv8) & (c[i] as bv8))) as int
  }

  /// ... and what any of them says.
  predicate IsUnion(u: bytes, a: bytes, b: bytes, c: bytes) {
    && |u| == |a| == |b| == |c|
    && forall i :: 0 <= i < |u| ==> u[i] == ((a[i] as bv8) | (b[i] as bv8) | (c[i] as bv8)) as int
  }

  lemma CandidatesMeaning(a: bytes, b: bytes, c: bytes, m: bytes, u: bytes)
    requires IsMajority(m, a, b, c) && IsUnion(u, a, b, c)
    ensures Candidates([a, b, c]) == [m, a, b, c, u]
  {
    var cs := Candidates([a, b, c]);
    forall i | 0 <= i < |m| ensures cs[0][i] == m[i] && cs[4][i] == u[i] {
      ByteMeaning(a[i], b[i], c[i]);
    }
    hide IsMajority, IsUnion;
    assert cs[0] == m && cs[4] == u;
  }

  lemma ByteMeaning(a: byte, b: byte, c: byte)
    ensures MajorityByte(a, b, c) == (((a as bv8) & (b as bv8)) | ((a as bv8) & (c as bv8)) | ((b as bv8) & (c as bv8))) as int
    ensures OrByte(a, b, c) == ((a as bv8) | (b as bv8) | (c as bv8)) as int
  {
  }

  ghost predicate ReadsSome(page: bytes) { exists text: bytes :: Reads(page, text) }

  lemma SomeText(page: bytes)
    requires |page| >= 128
    ensures PageText(page).Some? <==> ReadsSome(page)
  {
    hide Reads;
    if PageText(page).Some? {
      PageMeaning(page, PageText(page).value);
    }
    if text: bytes :| Reads(page, text) {
      PageMeaning(page, text);
    }
  }

  /// The first candidate that holds a text, when all that hold one hold the same.
  ghost predicate DecodedIs(r: Decoded, cs: seq<bytes>) {
    match r
    case Decoded(k, page, text) =>
      && k < |cs| && page == cs[k] && Reads(page, text)
      && (forall j :: 0 <= j < k ==> !ReadsSome(cs[j]))
      && (forall j, other: bytes :: 0 <= j < |cs| && Reads(cs[j], other) ==> other == text)
    case Failed(NoValidText) => forall j :: 0 <= j < |cs| ==> !ReadsSome(cs[j])
    case Failed(Ambiguous) => exists j, k, text: bytes, other: bytes ::
      0 <= j < |cs| && 0 <= k < |cs| && Reads(cs[j], text) && Reads(cs[k], other) && text != other
    case Failed(BadShape) => false
  }

  /// Three copies of at most a page are decoded by the majority, each copy, and the union, in this order.
  lemma DecodeMeaning(a: bytes, b: bytes, c: bytes, m: bytes, u: bytes)
    requires IsMajority(m, a, b, c) && IsUnion(u, a, b, c)
    ensures
      var r := Decode(a + b + c);
      if 128 <= |a| <= 4096 && |a| % 8 == 0 then DecodedIs(r, [m, a, b, c, u]) else r == Failed(BadShape)
  {
    var data, n := a + b + c, |a|;
    assert |data| == 3 * n && |data| / 3 == n;
    if 128 <= n <= 4096 && n % 8 == 0 {
      assert data[..n] == a && data[n..2 * n] == b && data[2 * n..] == c;
      CandidatesMeaning(a, b, c, m, u);
      ChosenMeaning(data, [m, a, b, c, u]);
    }
  }

  lemma ChosenMeaning(data: bytes, cs: seq<bytes>)
    requires GoodShape(data) && Candidates(Pages(data)) == cs
    ensures DecodedIs(Decode(data), cs)
  {
    hide Reads, PageText, Candidates, Pages, Zip, ReadsSome;
    var valid := Valid(cs, 0);
    forall j | 0 <= j < |cs| ensures PageText(cs[j]).Some? <==> ReadsSome(cs[j]) {
      SomeText(cs[j]);
    }
    forall j, text: bytes | 0 <= j < |cs| ensures PageText(cs[j]) == Some(text) <==> Reads(cs[j], text) {
      PageMeaning(cs[j], text);
    }
    if valid != [] {
      if k :| k in valid && PageText(cs[k]) != PageText(cs[valid[0]]) {
        assert Reads(cs[k], PageText(cs[k]).value) && Reads(cs[valid[0]], PageText(cs[valid[0]]).value);
      } else {
        forall j, other: bytes | 0 <= j < |cs| && Reads(cs[j], other) ensures other == PageText(cs[valid[0]]).value {
          assert PageText(cs[j]) == Some(other);
          assert j in valid;
        }
      }
    }
  }
}
