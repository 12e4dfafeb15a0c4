# MCP4728 command-frame encoder

A model of the core of a driver for the MCP4728, a four-channel 12-bit
digital-to-analog converter on a two-wire serial bus (fixed device address
0x60). The driver turns a request into the byte frame the device expects:

- **Single-channel write** (`mcp4728_set_channel`): the value is masked to 12
  bits and packed into 3 bytes. The first byte is opcode 0x40 with the channel
  index in bits 2-1. The second byte holds the VREF bit (7), two zero
  power-down bits (6-5), the gain bit (4) and the top four code bits (3-0).
  The third byte holds the low eight code bits. The call succeeds iff the
  transport reports 3 bytes written.
- **Sequential multi-write** (`mcp4728_set_all_channels`): opcode 0x50, then
  one 2-byte entry per channel A-D with the same layout as bytes 1-2 of the
  single frame and one shared VREF/gain pair. The caller's four values are
  masked to 12 bits in place. The call succeeds iff the transport reports 9
  bytes written.
- **Bus scanner** (`i2c_scan`): walks the 7-bit addresses as 8 rows of 16,
  skips the reserved ranges 0x00-0x07 and 0x78-0x7F, and attempts a one-byte
  read at every other address.

Files:

- `wrappers.dfy`: module `Wrappers`, the `Option` type the decoders return.
- `mcp4728.dfy`: module `MCP4728`. It holds the channel, reference and gain
  enumerations, the opcodes, the 12-bit mask, both frame builders with their
  decoders, `SetChannel` (a function) and `SetAllChannels` (a method that
  masks an `array<bv16>` in place and fills a 9-byte `array<bv8>` buffer).
- `scan.dfy`: module `BusScan`. `Scan` is a method with the source's outer
  counting loop over the rows. Its inner loop over the 16 columns of a row,
  with the `continue` for reserved addresses, is the method `ScanRow`. `Scan`
  returns the addresses read, in order, and the table of cells the scan
  prints. The address is `Address`, 16 x row + column. The lemma
  `AddressIsBitOr` shows this equals the source's shift-and-or on 8-bit values.

Values are `bv16`, as the source's `uint16_t`. Frame bytes are `bv8`, as
its `uint8_t`, and the implicit narrowing to `uint8_t` is written out as
`Low8`. The enumerations are datatypes whose ordinal values match the
source's enumerators. The bus is a function parameter. For a write it maps
(device address, frame) to the byte count the transport returns. For the
scanner's read it maps an address to the value the read returns.

Every frame builder has a decoder as its partner. For each frame kind two
lemmas are proved. First, decoding a built frame gives back the channel, the
selectors and the masked code. Second, for the single-channel frame, every
frame that decodes is exactly the frame built from what it decodes to. For
the multi-write frame this holds for every frame that decodes with one
shared reference and gain: that frame is the one built from its four codes
and those selectors. The decoder also accepts a multi-write frame whose
entries carry different selectors. The builder never produces one, because
it takes one reference and one gain for all four entries.

The code masks rather than clamps: `value & 0x0FFF` wraps a value above
4095 around, it does not saturate. The model follows the code (`Mask12`: the result is the value
modulo 0x1000).

## Model

| member | source | states |
|---|---|---|
| MCP4728.Mask12 | MCP4728lib.cpp:89-90 | the code is the value modulo 0x1000, so it is at most 4095 and larger inputs wrap rather than saturate |
| MCP4728.Low8 | MCP4728lib.cpp:99-102 | the conversion to `uint8_t` keeps the value modulo 0x100 |
| MCP4728.Channel.Index | MCP4728lib.cpp:36-42 | the enumerator value CHANNEL_A = 0 up to CHANNEL_D = 3, at most 3, so it fits the 2-bit channel field |
| MCP4728.Vref.Bit | MCP4728lib.cpp:45-49 | VREF_VDD = 0 and VREF_INT = 1: at most 1, and 1 exactly for the internal reference |
| MCP4728.Gain.Bit | MCP4728lib.cpp:52-56 | GAIN_1X = 0 and GAIN_2X = 1: at most 1, and 1 exactly for 2x gain |
| MCP4728.ChannelOf | MCP4728lib.cpp:36-42 | the 2-bit index read from a frame names the channel whose enumerator value it is |
| MCP4728.VrefOf | MCP4728lib.cpp:45-49 | the VREF bit read from a frame names the reference selector with that enumerator value |
| MCP4728.GainOf | MCP4728lib.cpp:52-56 | the gain bit read from a frame names the gain selector with that enumerator value |
| MCP4728.CommandByte | MCP4728lib.cpp:94-95 | byte 0 is 0x40 + 2 x channel index; `(b >> 1) & 3` recovers the channel and the opcode bits are unchanged by it |
| MCP4728.HighByte | MCP4728lib.cpp:97-99 | bits 6-5 are zero; bit 7 is the VREF bit; bit 4 is the gain bit; bits 3-0 are the code's bits 11-8 (the fields do not overlap) |
| MCP4728.LowByte | MCP4728lib.cpp:101-102 | the low byte is the code modulo 0x100 |
| MCP4728.DataBytes | MCP4728lib.cpp:97-102 | two data bytes, from which `((b1 & 0x0F) << 8) OR b2` reconstructs the 12-bit code |
| MCP4728.SelectorBits | MCP4728lib.cpp:97-98 | bit 7 of the first data byte reads back as the reference selector and bit 4 as the gain selector |
| MCP4728.CodeBits | MCP4728lib.cpp:97-102 | the power-down bits of the first data byte are zero and the two data bytes reassemble into the code |
| MCP4728.EntryRoundTrip | MCP4728lib.cpp:97-102 | decoding the two data bytes gives back the reference, gain and code |
| MCP4728.EntryCanonical | MCP4728lib.cpp:97-102 | any two bytes that decode are exactly the data bytes of what they decode to |
| MCP4728.SingleFrame | MCP4728lib.cpp:89-102 | 3 bytes; byte 0 is 0x40, 0x42, 0x44 or 0x46 and encodes the channel; byte 1 carries VREF in bit 7 and gain in bit 4 with bits 6-5 zero; `((byte1 & 0x0F) << 8) OR byte2 == value & 0x0FFF` |
| MCP4728.SingleFrameRoundTrip | MCP4728lib.cpp:89-102 | decoding the frame gives back the channel, reference, gain and masked code |
| MCP4728.SingleFrameCanonical | MCP4728lib.cpp:89-102 | every 3-byte frame that decodes is exactly the frame built from its decoded request |
| MCP4728.SingleFrameExample | MCP4728lib.cpp:92-102 | channel A, 2048, VDD, 1x gives {0x40, 0x08, 0x00}; two more concrete frames |
| MCP4728.SetChannel | MCP4728lib.cpp:86-108 | success iff the transport, called with address 0x60 and the single frame, returns the frame's length (3) |
| MCP4728.EncodeEntries | MCP4728lib.cpp:118-128 | the entries take two bytes per value |
| MCP4728.EncodeEntriesAt | MCP4728lib.cpp:123-127 | entry i occupies bytes 2i and 2i+1 and holds the data bytes of the masked values[i] |
| MCP4728.EncodeEntriesAppend | MCP4728lib.cpp:123-127 | encoding one more value appends its two data bytes to the encoding of the others |
| MCP4728.DecodeEntries | MCP4728lib.cpp:118-128 | a successful decode yields one entry per two bytes |
| MCP4728.DecodeEntriesAppend | MCP4728lib.cpp:123-127 | decoding two more bytes appends their entry to the decoded entries, and fails iff either part fails |
| MCP4728.EntriesOf | MCP4728lib.cpp:118-127 | one entry per value; entry i holds values[i] masked to 12 bits with the shared reference and gain |
| MCP4728.EntriesOfAppend | MCP4728lib.cpp:123-127 | one more value adds its masked entry at the end |
| MCP4728.EntriesRoundTrip | MCP4728lib.cpp:118-128 | decoding the entries gives back each masked value at its own position, with the shared selectors |
| MCP4728.EntriesCanonical | MCP4728lib.cpp:118-128 | entries that decode with one shared reference and gain are exactly the encoding of their codes |
| MCP4728.EncodeEntriesMasked | MCP4728lib.cpp:120-127 | masking the values before encoding does not change the bytes |
| MCP4728.MultiFrame | MCP4728lib.cpp:113-128 | 9 bytes, the first being the opcode 0x50 |
| MCP4728.DecodeMulti | MCP4728lib.cpp:113-128 | a decoded multi-write frame holds four entries |
| MCP4728.MultiFrameRoundTrip | MCP4728lib.cpp:113-128 | each `values[i] & 0xFFF` and the shared reference and gain are recovered from position i of the frame |
| MCP4728.MultiFrameAt | MCP4728lib.cpp:123-127 | byte 2i+1 of the multi-write frame is the first data byte and byte 2i+2 the second data byte of the masked values[i] |
| MCP4728.MultiEntryMatchesSingle | MCP4728lib.cpp:95-127 | bytes 2i+1 and 2i+2 of the multi-write frame equal bytes 1-2 of the single-channel frame for channel i and values[i] |
| MCP4728.MultiFrameCanonical | MCP4728lib.cpp:113-128 | every 9-byte frame that decodes with one shared reference and gain is exactly the frame built from its codes |
| MCP4728.MultiFrameMasked | MCP4728lib.cpp:118-121 | sending the array again after it was masked in place builds the same frame |
| MCP4728.SetAllChannels | MCP4728lib.cpp:111-143 | afterwards values[i] is its old value masked to 12 bits and nothing else changes; success iff the transport, called with address 0x60 and the frame of the old values, returns 9 |
| BusScan.Reserved | MCP4728lib.cpp:185 | for a non-negative address, reserved exactly when it is outside 0x08-0x77, that is `addr <= 0x07 OR addr >= 0x78` |
| BusScan.Address | MCP4728lib.cpp:182 | for a column below 16, the address divided by 16 is the row and its remainder is the column |
| BusScan.CellFor | MCP4728lib.cpp:185-195 | blank exactly for a reserved address; otherwise the address itself when the read returns a non-negative value and "--" when it returns a negative one |
| BusScan.AddressIsBitOr | MCP4728lib.cpp:182 | for a row below 8 and a column below 16, `(prefix << 4) OR suffix` is 16 x prefix + suffix, below 0x80 |
| BusScan.ProbedBelowStep | MCP4728lib.cpp:182-192 | moving past one address adds one read exactly when the address is not reserved |
| BusScan.ProbedAddresses | MCP4728lib.cpp:176-192 | the reads 0x08, 0x09, ... 0x77 are in strictly ascending order and are exactly the non-reserved 7-bit addresses |
| BusScan.ScanRow | MCP4728lib.cpp:180-196 | the 16 cells of a row, each blank for a reserved address and otherwise showing whether the read returned a non-negative value; the reads so far extended by the non-reserved addresses of this row, in order |
| BusScan.Scan | MCP4728lib.cpp:172-199 | exactly one read is attempted at each of 0x08-0x77, in ascending order, and never at a reserved address; the printed table has 8 rows of 16 cells, each blank for a reserved address and otherwise showing whether the read at that address returned a non-negative value |

## Left out

- `mcp4728_voltage_to_value` (MCP4728lib.cpp:146-161): floating-point division with a truncating cast to `uint16_t`. That cast is undefined for negative values, so there is no faithful integer model of it.
- `mcp4728_init` and `mcp4728_trigger_ldac` (MCP4728lib.cpp:59-83, 164-169): pin and bus configuration and a timed pulse on the LDAC pin. This is hardware I/O and timing.
- `main` (MCP4728lib.cpp:201-218): an endless loop of scans with a delay.
- The console output: the debug dump of the multi-write buffer and the result line (MCP4728lib.cpp:130-136, 140), and the scanner's `printf` calls. The model keeps only the content of the scan table as cells, not its text.
- The bus transport itself (`i2c_write_blocking`, `i2c_read_blocking`): a function parameter. The write's `nostop` argument is always false and is not modelled. The byte read by the scanner is discarded by the source and is not modelled.
- ScanRow, Scan: the bus read is a pure function, so the list of addresses read is recorded by the body next to each call of `read`. The contract cannot observe a call to `read` itself, so a call that left no entry in that list would go unnoticed.
- The EEPROM-write opcode 0x58 (MCP4728lib.cpp:32): defined but never used.
- Enumeration arguments outside the declared enumerators (say a channel of 7 passed as an `int`): a datatype admits only the declared ones. The source's `& 0x01` on the VREF and gain values is modelled, but with these types it never changes anything.
- `examples/basic_usage.cpp`: demonstration code calling a class from a header that is not part of this model.
