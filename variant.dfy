/**
 * The older copy of the library in src/conf.c with its header
 * src/include/conf.h, where it differs from libconf: its type table has
 * separate int_32 and uint_32 rows (33 rows in all), its enum was not
 * renumbered to match, and its ipv4 setter parses nothing.
 *
 * CONF_TYPE(t) is &conf_type_tab[t] in both copies, so a tag selects the
 * row at its position whatever the row's own code says.
 */
module Variant {
  import opened Wrappers
  import opened CNum
  import opened ConfTypes
  import opened EncDec
  import opened Inet

  // ---------------------------------------------------------------------
  // enum conf_type of src/include/conf.h
  // ---------------------------------------------------------------------

  const VInt8: nat := 8
  const VInt16: nat := 13
  const VInt32: nat := 18
  const VUint32: nat := 19
  const VHex32: nat := 20
  const VBin32: nat := 21
  const VOct32: nat := 22
  /** CONF_INT64 and CONF_UINT64 repeat the values of CONF_BIN32 and CONF_OCT32. */
  const VInt64: nat := 21
  const VUint64: nat := 22
  const VHex64: nat := 23
  const VBin64: nat := 24
  const VOct64: nat := 25
  const VIpv4Addr: nat := 26
  const VRgb: nat := 27
  const VRgbi: nat := 28
  const VCymk: nat := 29
  const VRatio: nat := 30
  const VMax: nat := 31

  /** conf_type_tab of src/conf.c, in declaration order, codes as written there. */
  const VariantTable: seq<TypeRow> := [
    TypeRow(ConfVoid, "void", VoidKind),
    TypeRow(ConfSection, "section", SectionKind),
    TypeRow(ConfInt, "integer", Signed(W32)),
    TypeRow(ConfUint, "unsigned", Unsigned(W32)),
    TypeRow(ConfFloat, "float", FloatKind),
    TypeRow(ConfString, "string", StringKind),
    TypeRow(ConfBoolean, "boolean", BoolKind),
    TypeRow(ConfChar, "char", CharKind),
    TypeRow(VInt8, "int_8", Signed(W8)),
    TypeRow(VInt8, "uint_8", Unsigned(W8)),
    TypeRow(10, "hex_8", Hex(W8)),
    TypeRow(11, "binary_8", Stub(Bin8)),
    TypeRow(12, "octal_8", Stub(Oct8)),
    TypeRow(VInt16, "int_16", Signed(W16)),
    TypeRow(VInt16, "uint_16", Unsigned(W16)),
    TypeRow(15, "hex_16", Hex(W16)),
    TypeRow(16, "binary_16", Stub(Bin16)),
    TypeRow(17, "octal_16", Stub(Oct16)),
    TypeRow(VInt32, "int_32", Signed(W32)),
    TypeRow(VInt32, "uint_32", Unsigned(W32)),
    TypeRow(VHex32, "hex_32", Hex(W32)),
    TypeRow(VBin32, "binary_32", Stub(Bin32)),
    TypeRow(VOct32, "octal_32", Stub(Oct32)),
    TypeRow(VInt64, "int_64", Signed(W64)),
    TypeRow(VInt64, "uint_64", Unsigned(W64)),
    TypeRow(VHex64, "hex_64", Hex(W64)),
    TypeRow(VBin64, "binary_64", Stub(Bin64)),
    TypeRow(VOct64, "octal_64", Stub(Oct64)),
    TypeRow(VIpv4Addr, "ipv4_address", Ipv4Kind),
    TypeRow(VRgb, "rgb", Stub(Rgb)),
    TypeRow(VRgbi, "rgbi", Stub(Rgbi)),
    TypeRow(VCymk, "cymk", Stub(Cymk)),
    TypeRow(VRatio, "ratio", Stub(Ratio))
  ]

  /** CONF_TYPE(t) of the variant: the row at position t. */
  function VariantType(tag: nat): (r: TypeRow)
    requires tag < |VariantTable|
    ensures r in VariantTable
  {
    VariantTable[tag]
  }

  // ---------------------------------------------------------------------
  // The table against the enum
  // ---------------------------------------------------------------------

  /**
   * The variant's table is libconf's with the int_32 and uint_32 rows
   * inserted after octal_16: the first 18 rows agree, and every later row
   * of libconf's table sits two places further down.
   */
  lemma TableShifted()
    ensures |VariantTable| == |TypeTable| + 2
    ensures forall t :: 0 <= t < 18 ==> VariantTable[t] == TypeTable[t]
    ensures forall t :: 18 <= t < |TypeTable| ==>
      VariantTable[t + 2].name == TypeTable[t].name && VariantTable[t + 2].kind == TypeTable[t].kind
  {
    forall t | 0 <= t < 18 ensures VariantTable[t] == TypeTable[t] {
    }
    forall t | 18 <= t < |TypeTable|
      ensures VariantTable[t + 2].name == TypeTable[t].name && VariantTable[t + 2].kind == TypeTable[t].kind
    {
    }
  }

  /** From CONF_INT64 on, the variant's enum keeps libconf's values. */
  lemma EnumKeepsValues()
    ensures VInt64 == ConfInt64 && VUint64 == ConfUint64 && VHex64 == ConfHex64 && VBin64 == ConfBin64
    ensures VOct64 == ConfOct64 && VIpv4Addr == ConfIpv4Addr && VRgb == ConfRgb && VRgbi == ConfRgbi
    ensures VCymk == ConfCymk && VRatio == ConfRatio && VMax == ConfMax
  {
  }

  /**
   * So each tag from CONF_INT64 to CONF_RATIO selects in the variant the
   * codecs libconf gives the tag two below it: CONF_INT64 and CONF_UINT64
   * get binary_32 and octal_32, CONF_IPV4ADDR gets binary_64, and so on,
   * and never the codecs libconf gives the tag itself.
   */
  lemma {:induction false} TagsSelectEarlierRows(tag: nat)
    requires VInt64 <= tag <= VRatio
    ensures VariantType(tag).kind == ConfType(tag - 2)
    ensures VariantType(tag).kind != ConfType(tag)
  {
    TableShifted();
    assert VariantType(tag) == VariantTable[(tag - 2) + 2];
    if tag == 21 {
      assert ConfType(tag - 2) == Stub(Bin32) && ConfType(tag) == Signed(W64);
    } else if tag == 22 {
      assert ConfType(tag - 2) == Stub(Oct32) && ConfType(tag) == Unsigned(W64);
    } else if tag == 23 {
      assert ConfType(tag - 2) == Signed(W64) && ConfType(tag) == Hex(W64);
    } else if tag == 24 {
      assert ConfType(tag - 2) == Unsigned(W64) && ConfType(tag) == Stub(Bin64);
    } else if tag == 25 {
      assert ConfType(tag - 2) == Hex(W64) && ConfType(tag) == Stub(Oct64);
    } else if tag == 26 {
      assert ConfType(tag - 2) == Stub(Bin64) && ConfType(tag) == Ipv4Kind;
    } else if tag == 27 {
      assert ConfType(tag - 2) == Stub(Oct64) && ConfType(tag) == Stub(Rgb);
    } else if tag == 28 {
      assert ConfType(tag - 2) == Ipv4Kind && ConfType(tag) == Stub(Rgbi);
    } else if tag == 29 {
      assert ConfType(tag - 2) == Stub(Rgb) && ConfType(tag) == Stub(Cymk);
    } else {
      assert ConfType(tag - 2) == Stub(Rgbi) && ConfType(tag) == Stub(Ratio);
    }
  }

  /** libconf's table has 31 rows, one per enum value; the variant's has 33. */
  lemma TableSizes()
    ensures |TypeTable| == ConfMax && |VariantTable| == VMax + 2
  {
  }

  // ---------------------------------------------------------------------
  // The ipv4 setter
  // ---------------------------------------------------------------------

  /**
   * ipv4addr_set of src/conf.c: allocates storage for a NULL pointer and
   * returns 1; the text is never parsed (the inet_aton call is commented
   * out).
   */
  function VariantIpv4Set(p: Ref, s: string): (r: SetResult)
    ensures r.Stored? && r.ok
    ensures !p.Null? ==> r.p == p
    ensures p.Null? ==> r.p == Storage(Junk)
  {
    Keep(p, true)
  }

  /**
   * The variant reports success and keeps the old address whatever address
   * the text gives, where libconf stores the new one.
   */
  lemma {:induction false} VariantIpv4IgnoresText(prev: seq<int>, q: seq<int>)
    requires IsQuad(prev) && IsQuad(q)
    ensures VariantIpv4Set(Storage(Quad(prev)), Ntoa(q)) == Stored(Storage(Quad(prev)), true)
    ensures Ipv4Set(Storage(Quad(prev)), Ntoa(q)) == Stored(Storage(Quad(q)), true)
    ensures Ipv4Get(VariantIpv4Set(Storage(Quad(prev)), Ntoa(q)).p) == Printed(Ntoa(prev))
  {
    Ipv4RoundTrip(q, Storage(Quad(prev)));
    Ipv4RoundTrip(prev, Storage(Quad(prev)));
  }

  /**
   * An entry declared with CONF_TYPE(CONF_IPV4ADDR) in the variant gets the
   * binary_64 row, whose setter only allocates and returns 0; the ipv4 row
   * is reached through CONF_RGBI instead.
   */
  lemma Ipv4TagInVariant(p: Ref, s: string)
    ensures VariantType(VIpv4Addr).kind == Stub(Bin64)
    ensures Set(VariantType(VIpv4Addr).kind, 0, p, s) == Stored(Allocate(p), false)
    ensures VariantType(VRgbi).kind == Ipv4Kind
  {
  }
}
