/**
 * The command-frame encoder of a driver for the MCP4728, a four-channel
 * 12-bit DAC on a two-wire serial bus.
 *
 * A request "set channel X to code N with reference R and gain G" becomes a
 * 3-byte single-write frame; "set all four channels" becomes a 9-byte
 * sequential multi-write frame. Codes are 16-bit values masked to 12 bits,
 * frame bytes are 8-bit values. The bus transport is a function parameter:
 * it is given the device address and the frame and returns the number of
 * bytes it reports written.
 */
module MCP4728 {
  import opened Wrappers

  /** The DAC's fixed 7-bit bus address. */
  const DeviceAddress: bv8 := 0x60

  /** Opcode of the single-channel write; the channel sits in bits 2-1. */
  const CmdWriteDac: bv8 := 0x40

  /** Opcode of the sequential write of all four channels. */
  const CmdMultiWrite: bv8 := 0x50

  /** The transport: (device address, frame) to the byte count it reports. */
  type Transport = (bv8, seq<bv8>) -> int

  datatype Channel = ChannelA | ChannelB | ChannelC | ChannelD {
    /** The enumerator's value: CHANNEL_A = 0 up to CHANNEL_D = 3. */
    function Index(): (i: bv8)
      ensures i <= 3
    {
      match this
      case ChannelA => 0
      case ChannelB => 1
      case ChannelC => 2
      case ChannelD => 3
    }
  }

  /** The channel a 2-bit index names; the inverse of Channel.Index. */
  function ChannelOf(i: bv8): (ch: Channel)
    requires i <= 3
    ensures ch.Index() == i
  {
    if i == 0 then ChannelA else if i == 1 then ChannelB else if i == 2 then ChannelC else ChannelD
  }

  /** Reference source: the supply (VREF_VDD = 0) or the internal 2.048 V one (VREF_INT = 1). */
  datatype Vref = VrefVdd | VrefInternal {
    /** The enumerator's value, which fits the one-bit VREF field. */
    function Bit(): (b: bv8)
      ensures b <= 1
      ensures b == 1 <==> this == VrefInternal
    {
      if VrefVdd? then 0 else 1
    }
  }

  /** Output gain: GAIN_1X = 0 or GAIN_2X = 1. */
  datatype Gain = Gain1x | Gain2x {
    /** The enumerator's value, which fits the one-bit gain field. */
    function Bit(): (b: bv8)
      ensures b <= 1
      ensures b == 1 <==> this == Gain2x
    {
      if Gain1x? then 0 else 1
    }
  }

  /** The reference selector a single frame bit stands for. */
  function VrefOf(b: bv8): (v: Vref)
    requires b <= 1
    ensures v.Bit() == b
  {
    if b == 0 then VrefVdd else VrefInternal
  }

  /** The gain selector a single frame bit stands for. */
  function GainOf(b: bv8): (g: Gain)
    requires b <= 1
    ensures g.Bit() == b
  {
    if b == 0 then Gain1x else Gain2x
  }

  /** A 12-bit DAC code, as it stands after masking. */
  type Code12 = c: bv16 | c <= 0xFFF

  /**
   * `value &= 0x0FFF`: the code keeps the low 12 bits of the value, so a
   * value above 4095 wraps around rather than saturating at 4095.
   */
  function Mask12(value: bv16): (c: Code12)
    ensures c == value % 0x1000
  {
    value & 0x0FFF
  }

  /** The implicit conversion of a wider value to `uint8_t`: keep the low 8 bits. */
  function Low8(x: bv16): (b: bv8)
    ensures b as bv16 == x % 0x100
  {
    (x & 0xFF) as bv8
  }

  /**
   * The first data byte: VREF in bit 7, the power-down bits 6-5 left zero,
   * the gain in bit 4 and the upper four bits of the code in bits 3-0.
   */
  function HighByte(code: Code12, vref: Vref, gain: Gain): (b: bv8)
    ensures b & 0x60 == 0
    ensures b >> 7 == vref.Bit()
    ensures (b >> 4) & 1 == gain.Bit()
    ensures (b & 0x0F) as bv16 == code >> 8
  {
    ((vref.Bit() & 0x01) << 7) | ((gain.Bit() & 0x01) << 4) | Low8(code >> 8)
  }

  /** The second data byte: the lower eight bits of the code. */
  function LowByte(code: Code12): (b: bv8)
    ensures b as bv16 == code % 0x100
  {
    Low8(code & 0xFF)
  }

  /** One channel's configuration and code, as a frame carries it. */
  datatype Entry = Entry(vref: Vref, gain: Gain, code: Code12)

  /** The two data bytes of an entry; the code is split across them. */
  function DataBytes(code: Code12, vref: Vref, gain: Gain): (d: seq<bv8>)
    ensures |d| == 2
    ensures ((d[0] & 0x0F) as bv16 << 8) | d[1] as bv16 == code
  {
    [HighByte(code, vref, gain), LowByte(code)]
  }

  /** Reads an entry back from its two data bytes; None if a power-down bit is set. */
  function DecodeEntry(hi: bv8, lo: bv8): Option<Entry>
  {
    if hi & 0x60 != 0 then None
    else Some(Entry(VrefOf(hi >> 7), GainOf((hi >> 4) & 1), ((hi & 0x0F) as bv16 << 8) | lo as bv16))
  }

  /** The selector bits of the first data byte read back as the selectors. */
  lemma SelectorBits(code: Code12, vref: Vref, gain: Gain)
    ensures VrefOf(HighByte(code, vref, gain) >> 7) == vref
    ensures GainOf((HighByte(code, vref, gain) >> 4) & 1) == gain
  {
  }

  /** The two data bytes reassemble into the code. */
  lemma CodeBits(code: Code12, vref: Vref, gain: Gain)
    ensures HighByte(code, vref, gain) & 0x60 == 0
    ensures ((HighByte(code, vref, gain) & 0x0F) as bv16 << 8) | LowByte(code) as bv16 == code
  {
  }

  /** Decoding the data bytes of an entry gives back that entry. */
  lemma EntryRoundTrip(code: Code12, vref: Vref, gain: Gain)
    ensures DecodeEntry(HighByte(code, vref, gain), LowByte(code)) == Some(Entry(vref, gain, code))
  {
    SelectorBits(code, vref, gain);
    CodeBits(code, vref, gain);
  }

  /** Every pair of bytes that decodes is the encoding of what it decodes to. */
  lemma EntryCanonical(hi: bv8, lo: bv8)
    requires DecodeEntry(hi, lo).Some?
    ensures var e := DecodeEntry(hi, lo).value;
      Mask12(e.code) == e.code && HighByte(e.code, e.vref, e.gain) == hi && LowByte(e.code) == lo
  {
  }

  // ---------------------------------------------------------------------
  // Single-channel write (mcp4728_set_channel)
  // ---------------------------------------------------------------------

  /** The command byte: the opcode with the channel index in bits 2-1. */
  function CommandByte(channel: Channel): (b: bv8)
    ensures b == CmdWriteDac + 2 * channel.Index()
    ensures (b >> 1) & 3 == channel.Index()
    ensures b & 0xF9 == CmdWriteDac
  {
    CmdWriteDac | (channel.Index() << 1)
  }

  /** The 3-byte buffer mcp4728_set_channel hands to the transport. */
  function SingleFrame(channel: Channel, value: bv16, vref: Vref, gain: Gain): (f: seq<bv8>)
    ensures |f| == 3
    ensures f[0] in {0x40, 0x42, 0x44, 0x46}
    ensures (f[0] >> 1) & 3 == channel.Index()
    ensures f[1] & 0x60 == 0 && f[1] >> 7 == vref.Bit() && (f[1] >> 4) & 1 == gain.Bit()
    ensures ((f[1] & 0x0F) as bv16 << 8) | f[2] as bv16 == value & 0x0FFF
  {
    [CommandByte(channel)] + DataBytes(Mask12(value), vref, gain)
  }

  /** A decoded single-channel write. */
  datatype SingleWrite = SingleWrite(channel: Channel, entry: Entry)

  /** Reads a single-channel write frame back; None if it is not one. */
  function DecodeSingle(f: seq<bv8>): Option<SingleWrite>
  {
    if |f| != 3 || f[0] & 0xF9 != CmdWriteDac then None
    else
      match DecodeEntry(f[1], f[2])
      case None => None
      case Some(e) => Some(SingleWrite(ChannelOf((f[0] >> 1) & 3), e))
  }

  /** Decoding a frame gives back the channel, the selectors and the masked code. */
  lemma SingleFrameRoundTrip(channel: Channel, value: bv16, vref: Vref, gain: Gain)
    ensures DecodeSingle(SingleFrame(channel, value, vref, gain))
         == Some(SingleWrite(channel, Entry(vref, gain, Mask12(value))))
  {
    EntryRoundTrip(Mask12(value), vref, gain);
  }

  /** Every frame that decodes is the one SingleFrame builds for what it decodes to. */
  lemma SingleFrameCanonical(f: seq<bv8>)
    requires DecodeSingle(f).Some?
    ensures var w := DecodeSingle(f).value;
      SingleFrame(w.channel, w.entry.code, w.entry.vref, w.entry.gain) == f
  {
    EntryCanonical(f[1], f[2]);
  }

  /** The example frame: channel A, code 2048, VDD reference, unity gain. */
  lemma SingleFrameExample()
    ensures SingleFrame(ChannelA, 2048, VrefVdd, Gain1x) == [0x40, 0x08, 0x00]
    ensures SingleFrame(ChannelB, 3072, VrefVdd, Gain1x) == [0x42, 0x0C, 0x00]
    ensures SingleFrame(ChannelD, 4095, VrefInternal, Gain2x) == [0x46, 0x9F, 0xFF]
  {
  }

  /**
   * mcp4728_set_channel: sends the single-channel frame to the device and
   * succeeds iff the transport reports the whole frame written.
   */
  function SetChannel(channel: Channel, value: bv16, vref: Vref, gain: Gain, write: Transport): (ok: bool)
    ensures ok <==> write(DeviceAddress, SingleFrame(channel, value, vref, gain))
                    == |SingleFrame(channel, value, vref, gain)|
  {
    write(DeviceAddress, SingleFrame(channel, value, vref, gain)) == 3
  }

  // ---------------------------------------------------------------------
  // Sequential multi-write (mcp4728_set_all_channels)
  // ---------------------------------------------------------------------

  /** The data bytes of the given values, two per value, in order. */
  function EncodeEntries(values: seq<bv16>, vref: Vref, gain: Gain): (bytes: seq<bv8>)
    ensures |bytes| == 2 * |values|
  {
    if values == [] then []
    else
      EncodeEntries(values[..|values| - 1], vref, gain)
        + DataBytes(Mask12(values[|values| - 1]), vref, gain)
  }

  /** Entry i of the encoding sits at bytes 2i and 2i+1. */
  lemma {:induction false} EncodeEntriesAt(values: seq<bv16>, vref: Vref, gain: Gain, i: nat)
    requires i < |values|
    ensures EncodeEntries(values, vref, gain)[2 * i] == HighByte(Mask12(values[i]), vref, gain)
    ensures EncodeEntries(values, vref, gain)[2 * i + 1] == LowByte(Mask12(values[i]))
  {
    var n := |values|;
    if i < n - 1 {
      EncodeEntriesAt(values[..n - 1], vref, gain, i);
      assert values[..n - 1][i] == values[i];
    }
  }

  /** Reads a sequence of 2-byte entries back; None if any entry does not decode. */
  function DecodeEntries(bytes: seq<bv8>): (r: Option<seq<Entry>>)
    requires |bytes| % 2 == 0
    ensures r.Some? ==> 2 * |r.value| == |bytes|
  {
    if bytes == [] then Some([])
    else
      var n := |bytes|;
      match DecodeEntries(bytes[..n - 2])
      case None => None
      case Some(es) =>
        match DecodeEntry(bytes[n - 2], bytes[n - 1])
        case None => None
        case Some(e) => Some(es + [e])
  }

  /** Appending one value appends its two data bytes. */
  lemma EncodeEntriesAppend(values: seq<bv16>, x: bv16, vref: Vref, gain: Gain)
    ensures EncodeEntries(values + [x], vref, gain)
         == EncodeEntries(values, vref, gain) + [HighByte(Mask12(x), vref, gain), LowByte(Mask12(x))]
  {
    assert (values + [x])[..|values|] == values;
  }

  /** Appending two bytes appends the entry they decode to, or fails. */
  lemma DecodeEntriesAppend(bytes: seq<bv8>, hi: bv8, lo: bv8)
    requires |bytes| % 2 == 0
    ensures DecodeEntries(bytes + [hi, lo])
         == if DecodeEntries(bytes).Some? && DecodeEntry(hi, lo).Some?
            then Some(DecodeEntries(bytes).value + [DecodeEntry(hi, lo).value])
            else None
  {
    assert (bytes + [hi, lo])[..|bytes|] == bytes;
  }

  /** The entries a sequence of values is sent as: each masked, with the shared selectors. */
  function EntriesOf(values: seq<bv16>, vref: Vref, gain: Gain): (es: seq<Entry>)
    ensures |es| == |values|
    ensures forall i :: 0 <= i < |values| ==> es[i] == Entry(vref, gain, Mask12(values[i]))
  {
    seq(|values|, i requires 0 <= i < |values| => Entry(vref, gain, Mask12(values[i])))
  }

  /** One more value adds its entry at the end. */
  lemma EntriesOfAppend(values: seq<bv16>, x: bv16, vref: Vref, gain: Gain)
    ensures EntriesOf(values + [x], vref, gain) == EntriesOf(values, vref, gain) + [Entry(vref, gain, Mask12(x))]
  {
    var l, r := EntriesOf(values + [x], vref, gain), EntriesOf(values, vref, gain) + [Entry(vref, gain, Mask12(x))];
    forall i | 0 <= i < |l|
      ensures l[i] == r[i]
    {
      if i < |values| {
        assert (values + [x])[i] == values[i];
      }
    }
  }

  /** Decoding the encoding gives each masked value back at its own position. */
  lemma {:induction false} EntriesRoundTrip(values: seq<bv16>, vref: Vref, gain: Gain)
    ensures DecodeEntries(EncodeEntries(values, vref, gain)) == Some(EntriesOf(values, vref, gain))
  {
    if values != [] {
      var n := |values|;
      var front, x := values[..n - 1], values[n - 1];
      var code := Mask12(x);
      assert values == front + [x];
      EncodeEntriesAppend(front, x, vref, gain);
      EntriesRoundTrip(front, vref, gain);
      EntryRoundTrip(code, vref, gain);
      DecodeEntriesAppend(EncodeEntries(front, vref, gain), HighByte(code, vref, gain), LowByte(code));
      EntriesOfAppend(front, x, vref, gain);
    }
  }

  /** The 9-byte buffer mcp4728_set_all_channels hands to the transport. */
  function MultiFrame(values: seq<bv16>, vref: Vref, gain: Gain): (f: seq<bv8>)
    requires |values| == 4
    ensures |f| == 9 && f[0] == CmdMultiWrite
  {
    [CmdMultiWrite] + EncodeEntries(values, vref, gain)
  }

  /** Reads a multi-write frame back to its four entries, channel A first. */
  function DecodeMulti(f: seq<bv8>): (r: Option<seq<Entry>>)
    ensures r.Some? ==> |r.value| == 4
  {
    if |f| != 9 || f[0] != CmdMultiWrite then None else DecodeEntries(f[1..])
  }

  /** Each values[i] & 0xFFF is recovered from position i of the frame, with the shared selectors. */
  lemma MultiFrameRoundTrip(values: seq<bv16>, vref: Vref, gain: Gain)
    requires |values| == 4
    ensures var d := DecodeMulti(MultiFrame(values, vref, gain));
      d.Some? && forall i :: 0 <= i < 4 ==> d.value[i] == Entry(vref, gain, Mask12(values[i]))
  {
    var f := MultiFrame(values, vref, gain);
    assert f[1..] == EncodeEntries(values, vref, gain);
    EntriesRoundTrip(values, vref, gain);
  }

  /** Bytes 2i+1 and 2i+2 of the multi-write frame hold the data bytes of the masked values[i]. */
  lemma MultiFrameAt(values: seq<bv16>, vref: Vref, gain: Gain, i: nat)
    requires |values| == 4 && i < 4
    ensures MultiFrame(values, vref, gain)[2 * i + 1] == HighByte(Mask12(values[i]), vref, gain)
    ensures MultiFrame(values, vref, gain)[2 * i + 2] == LowByte(Mask12(values[i]))
  {
    EncodeEntriesAt(values, vref, gain, i);
  }

  /** Bytes 2i+1 and 2i+2 of the multi-write frame are the data bytes of channel i's single frame. */
  lemma MultiEntryMatchesSingle(values: seq<bv16>, vref: Vref, gain: Gain, i: nat)
    requires |values| == 4 && i < 4
    ensures MultiFrame(values, vref, gain)[2 * i + 1..2 * i + 3]
         == SingleFrame(ChannelOf(i as bv8), values[i], vref, gain)[1..]
  {
    EncodeEntriesAt(values, vref, gain, i);
  }

  /** The codes of a sequence of entries, in order. */
  function CodesOf(es: seq<Entry>): (codes: seq<bv16>)
    ensures |codes| == |es| && forall i :: 0 <= i < |es| ==> codes[i] == es[i].code
  {
    seq(|es|, i requires 0 <= i < |es| => es[i].code)
  }

  /** All entries carry the given reference and gain selectors, as a multi-write frame does. */
  predicate SharedSelectors(es: seq<Entry>, vref: Vref, gain: Gain)
  {
    forall i :: 0 <= i < |es| ==> es[i].vref == vref && es[i].gain == gain
  }

  /** Dropping the last entry keeps the shared selectors; the last one carries them too. */
  lemma SharedSelectorsAppend(es: seq<Entry>, e: Entry, vref: Vref, gain: Gain)
    requires SharedSelectors(es + [e], vref, gain)
    ensures SharedSelectors(es, vref, gain) && e.vref == vref && e.gain == gain
  {
    assert (es + [e])[|es|] == e;
    forall i | 0 <= i < |es| ensures es[i].vref == vref && es[i].gain == gain {
      assert (es + [e])[i] == es[i];
    }
  }

  /** Entries that decode with shared selectors are the encoding of their codes. */
  lemma {:induction false} EntriesCanonical(bytes: seq<bv8>, vref: Vref, gain: Gain)
    requires |bytes| % 2 == 0
    requires DecodeEntries(bytes).Some? && SharedSelectors(DecodeEntries(bytes).value, vref, gain)
    ensures EncodeEntries(CodesOf(DecodeEntries(bytes).value), vref, gain) == bytes
  {
    if bytes != [] {
      var n := |bytes|;
      var front, hi, lo := bytes[..n - 2], bytes[n - 2], bytes[n - 1];
      assert bytes == front + [hi, lo];
      DecodeEntriesAppend(front, hi, lo);
      var head := DecodeEntries(front).value;
      var e := DecodeEntry(hi, lo).value;
      SharedSelectorsAppend(head, e, vref, gain);
      EntriesCanonical(front, vref, gain);
      EntryCanonical(hi, lo);
      assert CodesOf(head + [e]) == CodesOf(head) + [e.code];
      EncodeEntriesAppend(CodesOf(head), e.code, vref, gain);
    }
  }

  /** Masking the values first does not change their encoding. */
  lemma {:induction false} EncodeEntriesMasked(values: seq<bv16>, masked: seq<bv16>, vref: Vref, gain: Gain)
    requires |masked| == |values|
    requires forall i :: 0 <= i < |values| ==> masked[i] == Mask12(values[i])
    ensures EncodeEntries(masked, vref, gain) == EncodeEntries(values, vref, gain)
  {
    if values != [] {
      var n := |values|;
      EncodeEntriesMasked(values[..n - 1], masked[..n - 1], vref, gain);
      assert Mask12(masked[n - 1]) == Mask12(values[n - 1]);
    }
  }

  /** Every frame that decodes, with its four selectors equal, is the one MultiFrame builds for its codes. */
  lemma MultiFrameCanonical(f: seq<bv8>, vref: Vref, gain: Gain)
    requires DecodeMulti(f).Some? && SharedSelectors(DecodeMulti(f).value, vref, gain)
    ensures MultiFrame(CodesOf(DecodeMulti(f).value), vref, gain) == f
  {
    EntriesCanonical(f[1..], vref, gain);
    assert f == [f[0]] + f[1..];
  }

  /**
   * After SetAllChannels has masked the caller's array in place, sending the
   * array again builds the same frame.
   */
  lemma MultiFrameMasked(values: seq<bv16>, masked: seq<bv16>, vref: Vref, gain: Gain)
    requires |values| == 4 && |masked| == 4
    requires forall i :: 0 <= i < 4 ==> masked[i] == Mask12(values[i])
    ensures MultiFrame(masked, vref, gain) == MultiFrame(values, vref, gain)
  {
    EncodeEntriesMasked(values, masked, vref, gain);
  }

  /**
   * mcp4728_set_all_channels: masks each of the caller's four values to 12
   * bits in place, fills the 9-byte buffer and succeeds iff the transport
   * reports all 9 bytes written.
   */
  method SetAllChannels(values: array<bv16>, vref: Vref, gain: Gain, write: Transport) returns (ok: bool)
    requires values.Length == 4
    modifies values
    ensures forall i :: 0 <= i < 4 ==> values[i] == Mask12(old(values[i]))
    ensures ok <==> write(DeviceAddress, MultiFrame(old(values[..]), vref, gain)) == 9
  {
    ghost var original := values[..];
    ghost var frame := MultiFrame(original, vref, gain);
    var buffer := new bv8[9];
    buffer[0] := CmdMultiWrite;
    for i := 0 to 4
      invariant forall j :: 0 <= j < 4 ==> values[j] == if j < i then Mask12(original[j]) else original[j]
      invariant forall k :: 0 <= k < 2 * i + 1 ==> buffer[k] == frame[k]
    {
      // Mask the caller's value in place, then pack it.
      MultiFrameAt(original, vref, gain, i);
      var code := Mask12(values[i]);
      assert code == Mask12(original[i]);
      values[i] := code;
      buffer[2 * i + 1] := HighByte(code, vref, gain);
      buffer[2 * i + 2] := LowByte(code);
    }
    assert buffer[..] == frame;
    var result := write(DeviceAddress, buffer[..]);
    ok := result == 9;
  }
}
