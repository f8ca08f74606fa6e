/** The header of a hot-reload state blob: four magic bytes and two little-endian 32-bit numbers. */
module StateBlob {
  import opened Wrappers

  type Byte = b: nat | b < 256
  type U32 = n: nat | n < 0x1_0000_0000

  datatype Header = Header(magic: seq<Byte>, formatVersion: U32, pluginVersion: U32)

  const SIZE: nat := 12
  const FORMAT_VERSION: U32 := 1
  const MAGIC: seq<Byte> := [0x53, 0x4B, 0x53, 0x52]

  predicate IsValid(h: Header) {
    h.magic == MAGIC
  }

  function LittleEndian(n: U32): (bytes: seq<Byte>)
    ensures |bytes| == 4
  {
    [n % 256, n / 256 % 256, n / 0x1_0000 % 256, n / 0x100_0000]
  }

  function FromLittleEndian(bytes: seq<Byte>): U32
    requires |bytes| == 4
  {
    var b0: nat, b1: nat, b2: nat, b3: nat := bytes[0], bytes[1], bytes[2], bytes[3];
    b0 + 256 * b1 + 0x1_0000 * b2 + 0x100_0000 * b3
  }

  lemma LittleEndianRoundTrip(n: U32)
    ensures FromLittleEndian(LittleEndian(n)) == n
  {
    var q1: nat, q2: nat, q3: nat := n / 256, n / 0x1_0000, n / 0x100_0000;
    assert q2 == q1 / 256 && q3 == q2 / 256;
    assert n == 256 * q1 + n % 256 && q1 == 256 * q2 + q1 % 256 && q2 == 256 * q3 + q2 % 256;
  }

  lemma LittleEndianIsOnto(bytes: seq<Byte>)
    requires |bytes| == 4
    ensures LittleEndian(FromLittleEndian(bytes)) == bytes
  {
    var b0: nat, b1: nat, b2: nat, b3: nat := bytes[0], bytes[1], bytes[2], bytes[3];
    var n := FromLittleEndian(bytes);
    assert n / 256 == b1 + 256 * b2 + 0x1_0000 * b3;
    assert n / 0x1_0000 == b2 + 256 * b3;
    assert n / 0x100_0000 == b3;
  }

  function Bytes(h: Header): (bytes: seq<Byte>)
    requires |h.magic| == 4
    ensures |bytes| == SIZE
  {
    h.magic + LittleEndian(h.formatVersion) + LittleEndian(h.pluginVersion)
  }

  /** Fills a twelve-byte buffer, field by field. */
  method ToBytes(h: Header) returns (buffer: array<Byte>)
    requires |h.magic| == 4
    ensures fresh(buffer) && buffer[..] == Bytes(h)
  {
    buffer := new Byte[SIZE](_ => 0);
    Copy(buffer, 0, h.magic);
    Copy(buffer, 4, LittleEndian(h.formatVersion));
    Copy(buffer, 8, LittleEndian(h.pluginVersion));
    assert buffer[..] == buffer[0..4] + buffer[4..8] + buffer[8..12];
  }

  method Copy(buffer: array<Byte>, start: nat, bytes: seq<Byte>)
    requires start + |bytes| <= buffer.Length
    modifies buffer
    ensures buffer[start..start + |bytes|] == bytes
    ensures forall i :: 0 <= i < buffer.Length && !(start <= i < start + |bytes|) ==> buffer[i] == old(buffer[i])
  {
    for k := 0 to |bytes|
      invariant forall i :: 0 <= i < k ==> buffer[start + i] == bytes[i]
      invariant forall i :: 0 <= i < buffer.Length && !(start <= i < start + k) ==> buffer[i] == old(buffer[i])
    {
      buffer[start + k] := bytes[k];
    }
  }

  function FromBytes(data: seq<Byte>): Option<(Header, seq<Byte>)> {
    if |data| < SIZE || data[..4] != MAGIC then None
    else Some((Header(data[..4], FromLittleEndian(data[4..8]), FromLittleEndian(data[8..12])), data[SIZE..]))
  }

  /** The two directions of the codec: a valid header and payload are read back as written, and whatever is
      accepted is exactly what writing its parts would produce. */
  lemma CodecIsExact(data: seq<Byte>, h: Header, payload: seq<Byte>)
    requires |h.magic| == 4
    ensures FromBytes(data) == Some((h, payload)) <==> IsValid(h) && data == Bytes(h) + payload
  {
    if FromBytes(data) == Some((h, payload)) {
      LittleEndianIsOnto(data[4..8]);
      LittleEndianIsOnto(data[8..12]);
      assert data == data[..4] + data[4..8] + data[8..12] + data[SIZE..];
    }
    if IsValid(h) && data == Bytes(h) + payload {
      assert data[..4] == h.magic && data[4..8] == LittleEndian(h.formatVersion);
      assert data[8..12] == LittleEndian(h.pluginVersion);
      assert data[SIZE..] == payload;
      LittleEndianRoundTrip(h.formatVersion);
      LittleEndianRoundTrip(h.pluginVersion);
    }
  }

  function Versioned(pluginVersion: U32, payload: seq<Byte>): seq<Byte> {
    Bytes(Header(MAGIC, FORMAT_VERSION, pluginVersion)) + payload
  }

  /** Reading the header of a versioned state recovers its version and its data. */
  lemma VersionedIsRecovered(pluginVersion: U32, payload: seq<Byte>)
    ensures FromBytes(Versioned(pluginVersion, payload)) ==
            Some((Header(MAGIC, FORMAT_VERSION, pluginVersion), payload))
  {
    CodecIsExact(Versioned(pluginVersion, payload), Header(MAGIC, FORMAT_VERSION, pluginVersion), payload);
  }

  /** The value of four bytes, the least significant first. */
  function LittleEndianAt(bytes: seq<Byte>, i: nat): nat
    requires i + 4 <= |bytes|
  {
    var b0: nat, b1: nat, b2: nat, b3: nat := bytes[i], bytes[i + 1], bytes[i + 2], bytes[i + 3];
    b0 + 256 * b1 + 256 * 256 * b2 + 256 * 256 * 256 * b3
  }

  /** The layout by position: the letters SKSR, the format version 1 and the plugin's version, least significant byte
      first, and then the payload. */
  lemma LayoutByPosition(pluginVersion: U32, payload: seq<Byte>)
    ensures var blob := Versioned(pluginVersion, payload);
      && |blob| == 12 + |payload|
      && blob[0] == 'S' as int && blob[1] == 'K' as int && blob[2] == 'S' as int && blob[3] == 'R' as int
      && LittleEndianAt(blob, 4) == 1 && LittleEndianAt(blob, 8) == pluginVersion
      && blob[12..] == payload
  {
    var h := Header(MAGIC, FORMAT_VERSION, pluginVersion);
    var blob := Versioned(pluginVersion, payload);
    assert forall i :: 0 <= i < 4 ==> blob[4 + i] == LittleEndian(FORMAT_VERSION)[i];
    assert forall i :: 0 <= i < 4 ==> blob[8 + i] == LittleEndian(pluginVersion)[i];
    LittleEndianRoundTrip(pluginVersion);
  }
}
