/** The boot manifest as the partition sees it through the flattened
    device-tree library: nodes addressed by their offset, each with a name,
    a compatible list, named properties and an ordered list of children.
    Integer properties are stored big-endian (section 2.2.4 of the
    Devicetree Specification v0.4). The library's own walking of the blob
    is not modelled; only what its lookups answer is. */
module DeviceTree {
  import opened Efi

  // ---------------------------------------------------------------------
  // Big-endian integers
  // ---------------------------------------------------------------------

  function Pow256(n: nat): (r: nat)
    ensures r > 0
  {
    if n == 0 then 1 else 256 * Pow256(n - 1)
  }

  /** The value of a big-endian byte string: the first byte is the most
      significant one (Fdt32ToCpu/Fdt64ToCpu of an unaligned read). */
  function BeDecode(s: seq<u8>): nat {
    if s == [] then 0 else BeDecode(s[..|s| - 1]) * 256 + s[|s| - 1]
  }

  /** The n-byte big-endian encoding of v. */
  function BeEncode(v: nat, n: nat): (r: seq<u8>)
    ensures |r| == n
  {
    if n == 0 then [] else BeEncode(v / 256, n - 1) + [v % 256]
  }

  /** An n-byte string decodes below 256^n, so four bytes fit a UINT32 and
      eight a UINT64. */
  lemma {:induction false} BeDecodeBound(s: seq<u8>)
    ensures BeDecode(s) < Pow256(|s|)
  {
    if s != [] {
      BeDecodeBound(s[..|s| - 1]);
    }
  }

  /** Decoding undoes encoding for every value that fits in n bytes. */
  lemma {:induction false} BeDecodeEncode(v: nat, n: nat)
    requires v < Pow256(n)
    ensures BeDecode(BeEncode(v, n)) == v
  {
    if n > 0 {
      var e := BeEncode(v, n);
      assert e[..n - 1] == BeEncode(v / 256, n - 1);
      BeDecodeEncode(v / 256, n - 1);
    }
  }

  /** Encoding undoes decoding: the value read from a property determines
      the bytes it was read from. */
  lemma {:induction false} BeEncodeDecode(s: seq<u8>)
    ensures BeEncode(BeDecode(s), |s|) == s
  {
    if s != [] {
      var init := s[..|s| - 1];
      BeEncodeDecode(init);
      assert BeDecode(s) / 256 == BeDecode(init);
      assert BeDecode(s) % 256 == s[|s| - 1];
      assert s == init + [s[|s| - 1]];
    }
  }

  // ---------------------------------------------------------------------
  // The tree
  // ---------------------------------------------------------------------

  /** What FdtGetProperty hands out: the length it reports through its
      length argument, and the bytes from the property's data pointer on.
      A property in a well-formed blob is always followed by at least the
      end-of-node and end-of-tree tokens, so eight bytes can be read from
      its data pointer whatever its length. */
  datatype RawProperty = RawProperty(len: nat, data: seq<u8>)

  type Property = p: RawProperty | p.len <= |p.data| && 8 <= |p.data| && p.len < 0x8000_0000
    witness RawProperty(0, [0, 0, 0, 0, 0, 0, 0, 0])

  datatype Node = Node(
    name: string,
    compatible: seq<string>,
    props: map<string, Property>,
    children: seq<nat>)

  /** The compatible string of the FF-A partition manifest node. */
  const ManifestCompatible: string := "arm,ffa-manifest-1.0"

  /** Node offsets are positions in the sequence. */
  type Fdt = seq<Node>

  /** FdtGetProperty: the named property of a node, if the node has it. */
  function GetProperty(dt: Fdt, node: nat, name: string): Option<Property> {
    if node < |dt| && name in dt[node].props then Some(dt[node].props[name]) else None
  }

  function FirstCompatibleFrom(dt: Fdt, compat: string, from: nat): (r: Option<nat>)
    requires from <= |dt|
    ensures r.Some? ==> from <= r.value < |dt| && compat in dt[r.value].compatible
    ensures r.Some? ==> forall j :: from <= j < r.value ==> compat !in dt[j].compatible
    ensures r.None? ==> forall j :: from <= j < |dt| ==> compat !in dt[j].compatible
    decreases |dt| - from
  {
    if from == |dt| then None
    else if compat in dt[from].compatible then Some(from)
    else FirstCompatibleFrom(dt, compat, from + 1)
  }

  /** FdtNodeOffsetByCompatible (Fdt, -1, Compat): the first node, in offset
      order, whose compatible list names Compat; None for a negative
      (not found) offset. */
  function NodeByCompatible(dt: Fdt, compat: string): (r: Option<nat>)
    ensures r.Some? ==> r.value < |dt| && compat in dt[r.value].compatible
    ensures r.Some? ==> forall j :: 0 <= j < r.value ==> compat !in dt[j].compatible
    ensures r.None? ==> forall j :: 0 <= j < |dt| ==> compat !in dt[j].compatible
  {
    FirstCompatibleFrom(dt, compat, 0)
  }

  function ChildNamedFrom(dt: Fdt, kids: seq<nat>, name: string, from: nat): (r: Option<nat>)
    requires from <= |kids|
    ensures r.Some? ==> exists k :: from <= k < |kids| && kids[k] == r.value
    ensures r.Some? ==> r.value < |dt| && dt[r.value].name == name
    ensures r.None? ==> forall k :: from <= k < |kids| && kids[k] < |dt| ==> dt[kids[k]].name != name
    decreases |kids| - from
  {
    if from == |kids| then None
    else if kids[from] < |dt| && dt[kids[from]].name == name then Some(kids[from])
    else ChildNamedFrom(dt, kids, name, from + 1)
  }

  /** FdtSubnodeOffsetNameLen: the first child of `parent` with the given
      name. A parent that is itself a failed lookup gives a failed lookup. */
  function SubnodeByName(dt: Fdt, parent: Option<nat>, name: string): (r: Option<nat>)
    ensures r.Some? ==> parent.Some? && parent.value < |dt| && r.value in dt[parent.value].children
    ensures r.Some? ==> r.value < |dt| && dt[r.value].name == name
    ensures r.None? && parent.Some? && parent.value < |dt| ==>
      forall c :: c in dt[parent.value].children && c < |dt| ==> dt[c].name != name
  {
    if parent.None? || parent.value >= |dt| then None
    else
      var r := ChildNamedFrom(dt, dt[parent.value].children, name, 0);
      assert r.None? ==> forall c :: c in dt[parent.value].children && c < |dt| ==> dt[c].name != name by {
        if r.None? {
          forall c | c in dt[parent.value].children && c < |dt|
            ensures dt[c].name != name
          {
            var k :| 0 <= k < |dt[parent.value].children| && dt[parent.value].children[k] == c;
          }
        }
      }
      r
  }

  // ---------------------------------------------------------------------
  // ReadProperty32 / ReadProperty64
  // ---------------------------------------------------------------------

  /** ReadProperty32: a missing property is EFI_INVALID_PARAMETER (the
      caller's variable is left as it was); otherwise the value is the
      big-endian reading of the first four bytes at the data pointer, which
      is done without looking at the property's length. */
  function ReadProperty32(dt: Fdt, node: nat, name: string): (r: Result<u32>)
    ensures r.Err? <==> GetProperty(dt, node, name).None?
    ensures r.Err? ==> r.status == InvalidParameter
  {
    match GetProperty(dt, node, name)
    case None => Err(InvalidParameter)
    case Some(p) =>
      var bytes := p.data[..4];
      BeDecodeBound(bytes);
      Ok(BeDecode(bytes))
  }

  /** ReadProperty64: as ReadProperty32, with the first eight bytes. */
  function ReadProperty64(dt: Fdt, node: nat, name: string): (r: Result<u64>)
    ensures r.Err? <==> GetProperty(dt, node, name).None?
    ensures r.Err? ==> r.status == InvalidParameter
  {
    match GetProperty(dt, node, name)
    case None => Err(InvalidParameter)
    case Some(p) =>
      var bytes := p.data[..8];
      BeDecodeBound(bytes);
      Ok(BeDecode(bytes))
  }

  /** The value read is the one whose big-endian encoding is the first four
      bytes of the property. */
  lemma ReadProperty32Bytes(dt: Fdt, node: nat, name: string)
    requires ReadProperty32(dt, node, name).Ok?
    ensures BeEncode(ReadProperty32(dt, node, name).value, 4) == GetProperty(dt, node, name).value.data[..4]
  {
    BeEncodeDecode(GetProperty(dt, node, name).value.data[..4]);
  }

  lemma ReadProperty64Bytes(dt: Fdt, node: nat, name: string)
    requires ReadProperty64(dt, node, name).Ok?
    ensures BeEncode(ReadProperty64(dt, node, name).value, 8) == GetProperty(dt, node, name).value.data[..8]
  {
    BeEncodeDecode(GetProperty(dt, node, name).value.data[..8]);
  }

  /** A `<u32>` property holding v, followed by the four bytes a reader may
      see past its end. */
  function U32Property(v: u32): (p: Property)
    ensures p.len == 4 && p.data[..4] == BeEncode(v, 4)
  {
    RawProperty(4, BeEncode(v, 4) + [0, 0, 0, 0])
  }

  /** A `<u64>` property holding v. */
  function U64Property(v: u64): (p: Property)
    ensures p.len == 8 && p.data[..8] == BeEncode(v, 8)
  {
    RawProperty(8, BeEncode(v, 8))
  }

  /** A property whose leading bytes are the big-endian encoding of v reads
      back as v. */
  lemma ReadProperty32OfEncoding(dt: Fdt, node: nat, name: string, v: u32)
    requires GetProperty(dt, node, name).Some?
    requires GetProperty(dt, node, name).value.data[..4] == BeEncode(v, 4)
    ensures ReadProperty32(dt, node, name) == Ok(v)
  {
    BeDecodeEncode(v, 4);
  }

  lemma ReadProperty64OfEncoding(dt: Fdt, node: nat, name: string, v: u64)
    requires GetProperty(dt, node, name).Some?
    requires GetProperty(dt, node, name).value.data[..8] == BeEncode(v, 8)
    ensures ReadProperty64(dt, node, name) == Ok(v)
  {
    BeDecodeEncode(v, 8);
  }
}
