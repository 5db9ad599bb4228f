# Wireless Transmission Emulation — a verified model of the Python core

This project models, in Dafny, the Python side of the Wireless Transmission
Emulation system: the SimURF packet format and its link between a sender
application, the MATLAB/Simulink channel and a receiver application; the
SimURF and Sample software modems down to the symbol level; the transparent
RF emulator and network manager; the traffic generator and receiver; and the
metrics, analyzer and configuration components. Each module follows one
component of the program:

| module | models |
|---|---|
| `Wrappers`, `Exceptions` | results with an error, and the Python exceptions the code raises or catches |
| `Digits`, `BitCodec`, `Text`, `Utf8`, `Inet` | big-endian numbers, bit packing and unpacking, `str.split`/`join`, UTF-8, dotted-quad IPv4 addresses |
| `PacketFormat`, `Crc32`, `Crypto`, `Fec` | the 26-byte SimURF header with its CRC-32, the XOR demonstration cipher, repetition FEC with majority voting (`Matlab/shared`) |
| `Signal`, `Modulation`, `Qam16` | BPSK, QPSK and Gray-coded 16-QAM mapping and hard/soft demapping (`simurf/utils/modulation.py`) |
| `SimurfTransmitter`, `SimurfReceiver` | framing (start, 16-bit length, payload, stop), synchronisation, de-framing and the modem counters (`simurf/`) |
| `SampleTransmitter`, `SampleReceiver`, `SimulationServer` | the Sample modem's preamble and QPSK bit path, and the simulation server's per-packet counters (`Sample/simurf/src/`) |
| `RfEmulator`, `NetworkManager`, `PacketFilter` | the emulator's QPSK path to interleaved samples and back to bytes, and the capture filters (`Matlab/python_components/`) |
| `TrafficSender`, `TrafficReceiver` | test payloads, sequence tracking, loss/out-of-order/duplicate accounting |
| `BoundedDeque`, `Statistics`, `Metrics`, `Analyzer` | bounded windows, sum/mean/min/max, the metrics collector, performance monitor and analyzer (`Matlab/shared/metrics.py`, `Matlab/analyzer/`) |
| `Config` | the channel and network validators and the dot-path configuration lookup (`Matlab/shared/config_utils.py`) |
| `SenderApp`, `ReceiverApp` | the MATLAB-link sender and receiver applications: encode, encrypt, FEC, pack; unpack, check, decode, decrypt, count (`Matlab/sender/`, `Matlab/receiver/`) |

Objects whose methods update counters or windows in place are classes with
`modifies` clauses; pure conversions are functions with lemmas; loops of the
source are methods with invariants, proved against the function that
specifies them. Bytes are integers 0..255 and bits 0..1; symbols are pairs of
reals on the unscaled grid {±1, ±3}. Clocks, randomness (nonces, random
payload bytes) and socket outcomes are parameters.

## Model

| member | source | states |
|---|---|---|
| Digits.FromDigitsBound | Matlab/shared/packet_format.py:98-100 | a big-endian digit string of length n is worth less than base^n, so every unpacked field fits its width |
| Digits.FromToDigits | simurf/transmitter.py:58-60 | writing a value that fits in n digits and reading the digits back gives the value |
| Digits.ToFromDigits | simurf/receiver.py:241 | reading n digits and writing the value back in n digits gives the digits |
| Digits.ToDigitsAt | Sample/simurf/src/transmitter.py:30 | the digit k places from the end is (x / base^k) % base, which for base 2 is `(byte >> k) & 1` |
| Digits.FromDigitsInjective | simurf/receiver.py:241 | two digit strings of the same length and value are equal |
| BitCodec.ByteToBits | simurf/transmitter.py:51 | `np.unpackbits` gives 8 bits per byte |
| BitCodec.ByteBitsRoundTrip | Sample/simurf/src/receiver.py:80-83 | packing the 8 bits of a byte gives back the byte |
| BitCodec.BitsByteRoundTrip | Sample/simurf/src/receiver.py:80-83 | unpacking a packed group of 8 bits gives back the bits |
| BitCodec.ByteToBitsAt | Sample/simurf/src/transmitter.py:30 | bit i of a byte, most significant first, is `(b >> (7 - i)) & 1` |
| BitCodec.BytesToBits | simurf/transmitter.py:51 | unpacking n bytes gives 8n bits |
| BitCodec.BitsToBytes | Sample/simurf/src/receiver.py:72-85 | packing keeps one byte per complete group of 8 bits |
| BitCodec.BytesToBitsAppend | simurf/transmitter.py:63 | unpacking a concatenation is the concatenation of the unpackings |
| BitCodec.BytesToBitsAt | simurf/transmitter.py:51 | bit j of byte i sits at position 8i + j |
| BitCodec.BytesBitsRoundTrip | Sample/simurf/src/receiver.py:72-85 | packing unpacked bytes gives back the bytes |
| BitCodec.BitsBytesRoundTrip | Sample/simurf/src/receiver.py:72-85 | unpacking packed bits gives back every complete group of 8 bits |
| BitCodec.BitsToBytesTruncates | Sample/simurf/src/receiver.py:75-76 | dropping the trailing incomplete group first does not change the packed bytes |
| BitCodec.BitsToBytesAt | Sample/simurf/src/receiver.py:79-83 | packed byte k is the k-th group of 8 bits |
| BitCodec.OctetsDivisible | Sample/simurf/src/transmitter.py:36-37 | whole bytes give a bit count divisible by 2 and by 4, so the padding branches never fire |
| BitCodec.XorBits | Matlab/shared/crypto_utils.py:28 | the bitwise exclusive or has bit i set exactly where the inputs differ |
| BitCodec.XorByteBits | Matlab/shared/crypto_utils.py:28 | the bits of a ^ b are the exclusive or of the bits of a and b |
| BitCodec.XorByteInvolution | Matlab/shared/crypto_utils.py:28 | (a ^ k) ^ k == a |
| BitCodec.XorByteFixed | Matlab/shared/crypto_utils.py:28 | a ^ k == a exactly when k == 0 |
| BitCodec.XorAllOnesChanges | Matlab/tests/test_simurf.py:53 | x ^ 0xFF never equals x |
| BitCodec.CountOnesZero | Sample/simurf/src/simulation_server.py:135 | a bit string has no 1 bits exactly when all its bits are 0 |
| BitCodec.Popcount | Sample/simurf/src/simulation_server.py:135 | `bin(x).count('1')` of a byte is at most 8 |
| BitCodec.PopcountXor | Sample/simurf/src/simulation_server.py:133-135 | `bin(a ^ b).count('1')` counts the bit positions where a and b differ and is zero exactly when a == b |
| Text.Split | Matlab/shared/config_utils.py:150 | `str.split` always returns at least one piece |
| Text.SplitJoin | Matlab/shared/config_utils.py:150 | joining the pieces of a split with the separator gives back the string, and no piece holds the separator |
| Text.JoinSplit | Matlab/shared/config_utils.py:150 | splitting a join of separator-free pieces gives back the pieces |
| Text.DigitChar | Matlab/shared/packet_format.py:121-122 | a digit below 10 becomes the character whose value it is |
| Text.Decimal | Matlab/shared/packet_format.py:121-122 | `str(n)` is a non-empty string of decimal digits |
| Text.DecimalRoundTrip | Matlab/shared/packet_format.py:121-122 | `str(n)` is canonical and reads back as n |
| Text.CanonicalDecimal | Matlab/shared/packet_format.py:64-65 | a canonical numeral is `str` of its value |
| Text.DecimalLength | Matlab/shared/packet_format.py:121-122 | numbers below 10, 100 and 1000 take at most 1, 2 and 3 digits |
| Utf8.CharLength | Matlab/receiver/receiver_app.py:127 | the well-formed character at the head of a byte string is at most 4 bytes long and lies within it |
| Utf8.EncodeScalar | Matlab/sender/sender_app.py:88 | one character encodes to 1..4 bytes that form exactly one well-formed character |
| Utf8.Encode | Matlab/sender/sender_app.py:88 | `str.encode()` gives between 1 and 4 bytes per character |
| Utf8.EncodeValid | Matlab/sender/sender_app.py:88 | encoding always produces well-formed UTF-8 |
| Utf8.RejectsMalformed | Sample/simurf/src/transmitter.py:105 | a lone continuation byte and the overlong two-byte NUL are not well-formed, so `bytes.decode()` raises on them |
| Inet.ParseOctet | Matlab/shared/packet_format.py:64-65 | an accepted address component is the canonical decimal form of its byte |
| Inet.InetAton | Matlab/shared/packet_format.py:64-65 | an accepted dotted quad gives 4 address bytes |
| Inet.OctetRoundTrip | Matlab/shared/packet_format.py:121-122 | the decimal form of a byte is accepted as that byte and holds no dot |
| Inet.AtonNtoa | Matlab/shared/packet_format.py:121-122 | every 4-byte address survives `inet_ntoa` followed by `inet_aton` |
| Inet.NtoaAton | Matlab/shared/packet_format.py:64-65 | an accepted address is canonical: formatting its bytes gives back the text |
| Inet.RejectsInvalidIp | Matlab/tests/test_simurf.py:58-67 | the address "invalid.ip" is refused, so `pack` raises ValueError for it |
| PacketFormat.Field | Matlab/shared/packet_format.py:61-69 | a header field packed by `struct.pack` is exactly `width` bytes long |
| PacketFormat.FieldRoundTrip | Matlab/shared/packet_format.py:98-100 | `struct.unpack` of a big-endian field gives back every value that fits in its width |
| PacketFormat.CheckPacket | Matlab/shared/packet_format.py:29-34 | `Packet.__post_init__` accepts exactly a sequence number in 0..0xFFFFFFFF and a payload of at most 65507 bytes; anything else is a ValueError |
| PacketFormat.Pack | Matlab/shared/packet_format.py:37-73 | `pack` succeeds exactly when the sequence number and payload size are valid, both addresses parse and the timestamp fits in 64 bits; an out-of-range timestamp is a `struct.error`; a packed packet is 26 header bytes followed by the payload |
| PacketFormat.Unpack | Matlab/shared/packet_format.py:76-125 | `unpack` fails with ValueError on a short packet, on a length field that runs past the data and on a CRC mismatch, and succeeds otherwise; the payload it returns is the `length` bytes after the header, whose CRC is the received one |
| PacketFormat.PackLayout | Matlab/shared/packet_format.py:61-69 | the header of `!I4s4sQHI` holds the sequence number, the two address byte strings, the timestamp, the payload length and the payload CRC at offsets 0, 4, 8, 12, 20 and 22 |
| PacketFormat.PackUnpack | Matlab/shared/packet_format.py:37-125 | `unpack(pack(...))` returns exactly the fields that were packed |
| PacketFormat.UnpackIgnoresTrailer | Matlab/shared/packet_format.py:104-110 | bytes after header plus `length` are ignored by `unpack` |
| PacketFormat.ChecksumMismatchRejected | Matlab/shared/packet_format.py:110-117 | a packet whose payload does not match the checksum field is rejected with ValueError |
| PacketFormat.CorruptedPayloadRejected | Matlab/shared/packet_format.py:110-117 | a packet whose stored length and CRC describe its payload is rejected with ValueError once any one payload byte is changed |
| PacketFormat.PayloadCorruptionDetected | Matlab/shared/packet_format.py:110-117 | changing any one payload byte of a packed packet makes `unpack` raise ValueError |
| PacketFormat.LastByteFlipDetected | Matlab/tests/test_simurf.py:53 | flipping all bits of the last byte of a packed packet with a non-empty payload makes `unpack` raise ValueError |
| PacketFormat.CalculateOverhead | Matlab/shared/packet_format.py:128-137 | the total is 26 + payload size; for a positive total the percentage is 2600 / total, positive and at most 100 for a non-negative payload; a non-positive total gives 0 |
| PacketFormat.OverheadShare | Matlab/shared/packet_format.py:136 | the header share 26 / t * 100 times t is 2600, and it is at most 100 once t is at least 26 |
| Crc32.Crc | Matlab/shared/packet_format.py:58 | `zlib.crc32(payload) & 0xFFFFFFFF` is below 2^32 |
| Crc32.StepInjectiveByte | Matlab/shared/packet_format.py:113 | from the same register, two different bytes lead to different registers |
| Crc32.StepInjectiveRegister | Matlab/shared/packet_format.py:113 | the same byte fed into two different registers leads to different registers |
| Crc32.UpdateAppend | Matlab/shared/packet_format.py:113 | the CRC register over a + b is the register over a, continued over b |
| Crc32.UpdateInjectiveRegister | Matlab/shared/packet_format.py:113 | two different registers stay different over any message |
| Crc32.SingleByteChangeDetected | Matlab/shared/packet_format.py:113-117 | changing any single byte of a message changes its CRC-32 |
| Crc32.CheckValue | Matlab/shared/packet_format.py:58 | the CRC-32 register of the ASCII string "123456789" is the standard check value 0xCBF43926 |
| Crypto.Latin1 | Matlab/shared/crypto_utils.py:9 | a byte-string literal holds the character codes of its text, one byte each |
| Crypto.NewManager | Matlab/shared/crypto_utils.py:15-24 | `key or DEFAULT_KEY`: no key or an empty key selects the default key; any other key is kept exactly when it has at least 8 bytes, and ValueError is raised otherwise |
| Crypto.Xor | Matlab/shared/crypto_utils.py:26-28 | `_xor` output is as long as the data |
| Crypto.XorInvolution | Matlab/shared/crypto_utils.py:26-28 | XORing twice with the same keystream gives back the data |
| Crypto.XorChanges | Matlab/shared/crypto_utils.py:26-28 | output byte i differs from data byte i exactly when keystream byte i mod its length is not zero |
| Crypto.Encrypt | Matlab/shared/crypto_utils.py:30-54 | encryption refuses empty plaintext with ValueError; otherwise the ciphertext is the 4-byte nonce followed by as many bytes as the plaintext |
| Crypto.EncryptLayout | Matlab/shared/crypto_utils.py:49-54 | ciphertext byte 4 + i is plaintext byte i XOR byte i mod (4 + key length) of nonce ‖ key |
| Crypto.Decrypt | Matlab/shared/crypto_utils.py:56-82 | decryption fails with ValueError exactly on inputs shorter than 5 bytes and otherwise returns 4 bytes fewer |
| Crypto.DecryptEncrypt | Matlab/shared/crypto_utils.py:30-82 | decryption inverts encryption for every valid key, nonce and non-empty plaintext |
| Crypto.CiphertextDiffers | Matlab/shared/crypto_utils.py:54 | a ciphertext never equals its plaintext |
| Crypto.DefaultManagerBuilt | Matlab/shared/crypto_utils.py:102 | `CryptoManager()` builds the manager with the 20-byte default key, which is valid |
| Crypto.EncryptDefault | Matlab/shared/crypto_utils.py:105-107 | the module-level `encrypt` raises ValueError exactly for empty data, and whatever it returns the default manager decrypts back to the data |
| Crypto.DecryptDefault | Matlab/shared/crypto_utils.py:110-112 | the module-level `decrypt` fails, with ValueError, exactly on inputs shorter than 5 bytes |
| Fec.NewCodec | Matlab/shared/fec_utils.py:12-21 | `FECCodec(repetition)` succeeds exactly for 1..15 and keeps that factor; other factors raise ValueError |
| Fec.Repeat | Matlab/shared/fec_utils.py:38 | `bytes([b]) * n` is n copies of b |
| Fec.EncodeSpec | Matlab/shared/fec_utils.py:23-38 | the encoding is r times as long as the data and byte i of it is data byte i div r |
| Fec.MostCommon | Matlab/shared/fec_utils.py:68-69 | the majority byte occurs in the chunk and the count returned is its number of occurrences |
| Fec.MostCommonIsMode | Matlab/shared/fec_utils.py:68-69 | `most_common(1)` returns a byte no other byte outnumbers, and among the most frequent bytes the one that occurs first |
| Fec.Decode | Matlab/shared/fec_utils.py:40-76 | `decode` equals its specification: ValueError when the length is not a multiple of r, else one majority byte per group of r and the number of bytes the votes overruled |
| Fec.CorrectionsBound | Matlab/shared/fec_utils.py:74 | each group adds at most r - 1 corrections |
| Fec.DecodeEncode | Matlab/shared/fec_utils.py:23-76 | decoding an encoding gives back the data with zero corrections |
| Fec.VoteCorrects | Matlab/shared/fec_utils.py:64-71 | a group in which fewer than half of the bytes differ from b votes for b |
| Fec.DecodeCorrects | Matlab/shared/fec_utils.py:87-94 | when every group has at most (r - 1) div 2 bytes that differ from the sent byte, decoding gives back the data and counts exactly the corrupted bytes |
| Fec.GetOverhead | Matlab/shared/fec_utils.py:78-85 | the overhead factor lies between 1 and 15 |
| Fec.OverheadIsExpansion | Matlab/shared/fec_utils.py:78-85 | the overhead factor is the ratio of encoded to original length |
| Fec.MaxCorrectable | Matlab/shared/fec_utils.py:87-94 | (r - 1) // 2 is the largest e with 2e < r |
| Fec.FecEncode | Matlab/shared/fec_utils.py:101-113 | `fec_encode` succeeds exactly for factors 1..15 and returns repeat times as many bytes |
| Fec.FecDecodeWithStats | Matlab/shared/fec_utils.py:135-147 | `fec_decode_with_stats` raises ValueError exactly for a bad factor or a length not divisible by it, and otherwise decodes as specified |
| Fec.FecDecode | Matlab/shared/fec_utils.py:116-132 | `fec_decode` fails exactly when `fec_decode_with_stats` does and otherwise returns the majority bytes |
| Fec.FecRoundTrip | Matlab/shared/fec_utils.py:101-147 | for factors 1..15, `fec_decode_with_stats(fec_encode(x))` is (x, 0) |
| Digits.Pow | Matlab/shared/packet_format.py:11 | a power of a base of at least 1 is at least 1, and a positive power of a base of at least 2 is at least the base |
| Digits.ToDigits | simurf/transmitter.py:58-60 | writing a value in n digits gives exactly n digits, each below the base |
| Crc32.RegisterBytesInjective | Matlab/shared/packet_format.py:58 | two CRC registers with the same four bytes are equal |
| Crc32.CrcValueInjective | Matlab/shared/packet_format.py:113-114 | two CRC registers whose bytes read as the same 32-bit number are equal, so comparing the numbers compares the registers |
| Fec.EncodeLength | Matlab/shared/fec_utils.py:33-38 | the encoding is r times as long as the data, including the empty case |
| Fec.EncodeAt | Matlab/shared/fec_utils.py:38 | encoded byte i comes from data byte i div r, which exists |
| Fec.BestIndexSpec | Matlab/shared/fec_utils.py:68-69 | the chosen position holds a byte no earlier byte outnumbers, and every byte before it occurs strictly less often |
| Fec.RepeatCount | Matlab/shared/fec_utils.py:38 | r copies of b contain b exactly r times |
| Fec.VoteOnRepeat | Matlab/shared/fec_utils.py:68-69 | a group of r copies of b votes for b with count r |
| Fec.EncodeVoted | Matlab/shared/fec_utils.py:64-74 | voting over an encoding gives back the data and makes no corrections |
| Signal.Antipodal | simurf/utils/modulation.py:46-47 | `1 - 2·b` is +1 or -1, negative exactly for bit 1 |
| Signal.HardBit | simurf/utils/modulation.py:59 | the hard decision `(x < 0)` is 1 exactly for a negative coordinate |
| Signal.HardBitAntipodal | simurf/utils/modulation.py:46-60 | a hard decision recovers the bit an antipodal coordinate carries |
| Signal.SqDist | simurf/utils/modulation.py:159 | the squared distance is never negative |
| Signal.SqDistParts | simurf/utils/modulation.py:159 | the squared distance is the sum of the squared coordinate differences |
| Modulation.BpskModulate | simurf/utils/modulation.py:35-48 | one real symbol per bit, +1 for 0 and -1 for 1, imaginary part 0 |
| Modulation.BpskDemodulate | simurf/utils/modulation.py:49-61 | one bit per symbol, 1 exactly when the real part is negative |
| Modulation.BpskRoundTrip | simurf/utils/modulation.py:35-61 | demodulating modulated bits gives back the bits |
| Modulation.BpskToleratesNoise | simurf/utils/modulation.py:49-61 | every symbol moved by less than 1 on the real axis still demodulates to the bit it was sent as |
| Modulation.QpskPad | simurf/utils/modulation.py:73-74 | an odd bit count gets one zero bit appended; an even one is left alone |
| Modulation.QpskPoint | simurf/utils/modulation.py:80-85 | the corrected, signed QPSK mapping (see ## Findings): each bit of a pair picks the sign of one coordinate, negative for 1, and every coordinate is ±1 |
| Modulation.QpskModulate | simurf/utils/modulation.py:63-86 | over the corrected QPSK mapping (see ## Findings), which the source computes only for int64 or odd-length input: one symbol per pair of padded bits; the I sign carries the first bit and the Q sign the second |
| Modulation.QpskDemodulate | simurf/utils/modulation.py:88-111 | two bits per symbol, interleaved I then Q, each 1 exactly when its coordinate is negative |
| Modulation.QpskRoundTrip | simurf/utils/modulation.py:63-111 | over the corrected QPSK mapping (see ## Findings): demodulating modulated bits gives back the padded bits |
| Modulation.QpskPairs | simurf/utils/modulation.py:80-85 | over the corrected QPSK mapping (see ## Findings): the four pairs map to +1+1j, +1-1j, -1+1j and -1-1j (before scaling) |
| Modulation.WrappedCoordinate | simurf/utils/modulation.py:82-83 | `1 - 2 * b` in `uint8`: bit 0 gives 1 and bit 1 gives 255, both positive |
| Modulation.QpskModulateAsWritten | simurf/utils/modulation.py:63-86 | as written on a `uint8` array: an odd length is padded and promoted, giving the ±1 mapping; an even length gives points with both coordinates positive, 255 exactly where the bit is 1 |
| Modulation.QpskAsWrittenReadsZeros | simurf/utils/modulation.py:63-111 | as written, noiseless even-length `uint8` bits demodulate to all zeros, so the round trip holds exactly for the all-zero input |
| Modulation.QpskSelfTestFails | simurf/test_sample.py:95-114 | the self-test's QPSK check on `uint8` bits 10110010 reads back eight zeros, not the bits |
| Modulation.Llr | simurf/utils/modulation.py:187-191 | the ratio times σ² is 4x, and for σ² > 0 it is negative exactly when x is (soft-decision demodulator: no modem of the model calls it) |
| Modulation.SignOfQuotient | simurf/utils/modulation.py:187-191 | when l·σ² == 4x and σ² > 0, l and x have the same sign (soft-decision demodulator: no modem of the model calls it) |
| Modulation.SoftQpskDemodulate | simurf/utils/modulation.py:172-195 | two ratios per symbol, 4·Re(y)/σ² then 4·Im(y)/σ² (soft-decision demodulator: no modem of the model calls it) |
| Modulation.SoftAgreesWithHard | simurf/utils/modulation.py:88-111 | for σ² > 0, every soft ratio is negative exactly where `qpsk_demodulate` decides 1 (soft-decision demodulator: no modem of the model calls it) |
| Modulation.GetModulationInfo | simurf/utils/modulation.py:259-294 | known exactly for bpsk, qpsk and 16qam, with 1, 2 and 4 bits per symbol, 2^bits points and bits per symbol as spectral efficiency; empty otherwise |
| Modulation.InfoMatchesMappers | simurf/utils/modulation.py:259-294 | the reported bits per symbol is the number of input bits each mapper puts into one symbol, rounding up |
| Modulation.BitString | simurf/utils/modulation.py:220 | `f'{v:04b}'` spells the bits as the characters '0' and '1' |
| Modulation.LabelBits | simurf/utils/modulation.py:220 | reading a label gives one bit per character |
| Modulation.LabelBitsString | simurf/utils/modulation.py:220 | reading a spelled-out label gives back its bits |
| Modulation.ConstellationPlotData | simurf/utils/modulation.py:197-227 | plot data exists exactly for bpsk, qpsk and 16qam, with one coordinate pair and one label per constellation point; any other name raises ValueError |
| Modulation.BpskPlotLabelsAgree | simurf/utils/modulation.py:208-210 | each BPSK plot point demodulates to its label |
| Modulation.Qam16PlotLabelsAgree | simurf/utils/modulation.py:217-225 | each 16-QAM plot point demodulates to its label |
| Modulation.QpskPlotLabelsDisagree | simurf/utils/modulation.py:212-215 | the QPSK labels '01' and '10' sit on the points that `qpsk_demodulate` reads as 10 and 01 |
| Qam16.Level | simurf/utils/modulation.py:17-22 | each grid coordinate is -3, -1, 1 or 3 |
| Qam16.GrayInvolution | simurf/utils/modulation.py:25-30 | the Gray table is its own inverse |
| Qam16.LastIndex | simurf/utils/modulation.py:33 | the dictionary inversion keeps the last key holding a value |
| Qam16.GrayDemap | simurf/utils/modulation.py:33 | `qam16_gray_demap[v]` is the constellation index whose label is v |
| Qam16.GrayBijection | simurf/utils/modulation.py:25-33 | the Gray map is a bijection on 0..15 and the demap is its inverse in both directions |
| Qam16.NibbleBits | simurf/utils/modulation.py:165-168 | a label is written as four bits |
| Qam16.NibbleValue | simurf/utils/modulation.py:134-135 | four bits make a value below 16 |
| Qam16.NibbleDigits | simurf/utils/modulation.py:165-168 | the four shifts are the big-endian base-2 digits of the label |
| Qam16.NibbleRoundTrip | simurf/utils/modulation.py:134-168 | packing four bits and unpacking the value are inverse, both ways |
| Qam16.NibbleValueOfBits | simurf/utils/modulation.py:134-168 | unpacking a value below 16 and packing it again gives the value |
| Qam16.BitsOfNibbleValue | simurf/utils/modulation.py:134-168 | packing four bits and unpacking the value gives the bits |
| Qam16.GrayNeighbours | simurf/utils/modulation.py:25-30 | horizontally and vertically adjacent grid points carry labels that differ in exactly one bit |
| Qam16.Pad4 | simurf/utils/modulation.py:123-125 | zeros are appended up to the next multiple of 4 and the bits are kept |
| Qam16.Zeros | simurf/utils/modulation.py:125 | n zero bits |
| Qam16.Symbols | simurf/utils/modulation.py:113-142 | one symbol per 4-bit group of the padded bits |
| Qam16.Modulate | simurf/utils/modulation.py:113-142 | the loop fills the symbol array with exactly the symbols of `Qam16.Symbols` |
| Qam16.ArgMin | simurf/utils/modulation.py:158-160 | `np.argmin` returns an index among the candidates |
| Qam16.ArgMinSpec | simurf/utils/modulation.py:158-160 | the chosen point is nearest, and every earlier point is strictly farther, so ties go to the first index |
| Qam16.Nearest | simurf/utils/modulation.py:158-160 | the nearest point is one of the 16 |
| Qam16.LevelGap | simurf/utils/modulation.py:17-22 | two different grid levels are at least 2 apart |
| Qam16.GridSeparation | simurf/utils/modulation.py:17-22 | distinct constellation points are at squared distance at least 4 |
| Qam16.NearestOfPoint | simurf/utils/modulation.py:158-160 | a noiseless constellation point is nearest to itself |
| Qam16.Label | simurf/utils/modulation.py:162-168 | a demodulated symbol gives four bits |
| Qam16.Bits | simurf/utils/modulation.py:144-170 | four bits per symbol |
| Qam16.WriteNibble | simurf/utils/modulation.py:165-168 | the four bits of the label are written at 4i and the bits before are left alone |
| Qam16.Demodulate | simurf/utils/modulation.py:144-170 | the loop fills the bit array with exactly the bits of `Qam16.Bits` |
| Qam16.SymbolAt | simurf/utils/modulation.py:131-139 | symbol i is the point whose label is the i-th group of the padded bits |
| Qam16.SymbolNearest | simurf/utils/modulation.py:144-170 | symbol i of a modulation demodulates to the point it was sent as |
| Qam16.GroupLabel | simurf/utils/modulation.py:134-168 | relabelling the point chosen for a group gives back the group |
| Qam16.ExtendBits | simurf/utils/modulation.py:155-168 | demodulating one more symbol appends its four bits |
| Qam16.BitsSnoc | simurf/utils/modulation.py:155-168 | the bits of a prefix one symbol longer are the old bits followed by that symbol's label |
| Qam16.Relabel | simurf/utils/modulation.py:158-168 | a symbol nearest the point carrying a group demodulates to that group |
| Qam16.BitsFromGroups | simurf/utils/modulation.py:144-170 | when each symbol's label is the matching 4-bit group of p, demodulation gives p |
| Qam16.RoundTrip | simurf/utils/modulation.py:113-170 | demodulating noiseless symbols recovers the bits, padded with zeros to a multiple of 4 |
| SimurfTransmitter.LengthBits | simurf/transmitter.py:58-60 | the length field is 16 bits |
| SimurfTransmitter.LengthFieldRange | simurf/transmitter.py:58-60 | a big-endian u16 carries exactly the lengths below 65536 |
| SimurfTransmitter.PacketToBits | simurf/transmitter.py:40-66 | the frame is 8n + 32 bits: the start pattern, a 16-bit field whose value is n, the n packet bytes unpacked MSB-first, then the stop pattern |
| SimurfTransmitter.BitsToSymbols | simurf/transmitter.py:68-88 | bpsk, qpsk and 16qam give n, ⌈n/2⌉ and ⌈n/4⌉ symbols for n bits, qpsk over the corrected QPSK mapping (see ## Findings); any other scheme raises ValueError |
| SimurfTransmitter.Transmitter.constructor | simurf/transmitter.py:14-38 | a new transmitter keeps its scheme and has sent no packet and no byte |
| SimurfTransmitter.Transmitter.Transmit | simurf/transmitter.py:163-194 | over the corrected QPSK mapping (see ## Findings): the symbols are those of the framed packet; only a success counts one packet and its bytes, a failure changes no counter |
| SimurfTransmitter.Transmitter.GetStats | simurf/transmitter.py:196-204 | the report holds the two counters and the scheme |
| SimurfTransmitter.Transmitter.ResetStats | simurf/transmitter.py:206-209 | both counters are back to 0 |
| SimurfReceiver.Agreement | simurf/receiver.py:295-296 | the product of two bipolar values is +1 where the bits agree and -1 where they differ |
| SimurfReceiver.Complement | simurf/receiver.py:295-299 | the complement flips every bit of the pattern |
| SimurfReceiver.CorrBound | simurf/receiver.py:298-299 | a correlation lies between -len and len; it is len exactly on the pattern and -len exactly on its complement |
| SimurfReceiver.ArgMaxAbs | simurf/receiver.py:302 | `np.argmax` picks one of the offsets |
| SimurfReceiver.ArgMaxAbsSpec | simurf/receiver.py:302 | the picked offset has the largest magnitude, and every earlier offset a strictly smaller one |
| SimurfReceiver.FindSyncPattern | simurf/receiver.py:282-313 | the result is -1 or an offset where the whole pattern fits; a stream shorter than the pattern gives -1; a found offset's magnitude per pattern bit is above the threshold |
| SimurfReceiver.FindSyncSpec | simurf/receiver.py:282-313 | a found offset correlates at least as strongly as any other and strictly more than any earlier; -1 on a long enough stream means no offset clears the threshold |
| SimurfReceiver.DivMonotone | simurf/receiver.py:303 | dividing by the pattern length keeps the order of magnitudes |
| SimurfReceiver.FullCorrelation | simurf/receiver.py:298-303 | the pattern and its complement correlate with full magnitude |
| SimurfReceiver.SelfRatio | simurf/receiver.py:303 | a full magnitude divided by the pattern length is 1 |
| SimurfReceiver.ArgMaxAtZero | simurf/receiver.py:302 | a full-magnitude correlation at offset 0 keeps `np.argmax` at 0 |
| SimurfReceiver.SyncAtStart | simurf/receiver.py:282-313 | a stream opening with the pattern, or with its complement, is synchronised at 0 whenever the threshold is below 1 |
| SimurfReceiver.BitsToPacket | simurf/receiver.py:217-280 | a recovered packet follows a found start pattern: its length is the 16-bit field, its bits are the data bits and the stop pattern follows them; no start pattern gives None |
| SimurfReceiver.FramingRoundTrip | simurf/receiver.py:217-280 | a frame built by `packet_to_bits`, followed by anything, is read back as the packet |
| SimurfReceiver.FrameFields | simurf/transmitter.py:40-66 | where the start pattern, length field, data and stop pattern of a frame sit once anything is appended |
| SimurfReceiver.DeframeAt | simurf/receiver.py:236-275 | a stream synchronised at s whose length field, data and stop pattern all fit is read as its data bytes |
| SimurfReceiver.BitsToPacketAsWritten | simurf/receiver.py:241-273 | with the `uint16` length, the data read is 8·L mod 2^16 bits long |
| SimurfReceiver.WrapLength | simurf/receiver.py:245 | 8·L mod 2^16 is 8·(L mod 8192) |
| SimurfReceiver.PackAligned | simurf/receiver.py:266-273 | packing 8k bits gives k bytes, which unpack to the same bits, so the padding branch never fires |
| SimurfReceiver.AsWrittenAgreesBelow8192 | simurf/receiver.py:241-273 | whenever the length field is below 8192 the deframer as written agrees with the corrected one |
| SimurfReceiver.AsWrittenReadsSmallFrames | simurf/receiver.py:217-280 | as written, packets below 8192 bytes survive the framing round trip |
| SimurfReceiver.AsWrittenLosesLargeFrames | simurf/receiver.py:241-245 | as written, no packet of 8192 bytes or more survives the framing round trip |
| SimurfReceiver.StopByte | simurf/receiver.py:37 | the stop pattern is the byte 0x35 |
| SimurfReceiver.LargeFrameMisread | simurf/receiver.py:241-273 | an 8192-byte packet starting with 0x35 is read as the empty packet as written, and in full by the corrected deframer |
| SimurfReceiver.FirstDataByte | simurf/transmitter.py:63 | the first data byte of a frame follows its 24 bits of start pattern and length |
| SimurfReceiver.WrappedLengthReadsEmpty | simurf/receiver.py:241-273 | a length field of 8192 followed by the stop byte is read as the empty packet as written |
| SimurfReceiver.HighThresholdFindsNothing | simurf/receiver.py:307 | with a threshold of 1 or more no frame is ever found |
| SimurfReceiver.SymbolsToBits | simurf/receiver.py:190-215 | a known scheme gives bits-per-symbol bits per symbol; any other scheme gives None |
| SimurfReceiver.LinkRoundTrip | simurf/receiver.py:190-215 | over the corrected QPSK mapping (see ## Findings): for a bit count divisible by 4, every scheme's demodulation inverts its modulation |
| SimurfReceiver.BpskLink | simurf/receiver.py:200-201 | BPSK demodulation inverts BPSK modulation |
| SimurfReceiver.QpskLink | simurf/receiver.py:202-203 | over the corrected QPSK mapping (see ## Findings): QPSK demodulation inverts QPSK modulation on an even bit count |
| SimurfReceiver.Qam16Link | simurf/receiver.py:204-205 | 16-QAM demodulation inverts 16-QAM modulation on a bit count divisible by 4 |
| SimurfReceiver.PacketOverLink | simurf/receiver.py:47-83 | over the corrected QPSK mapping and the corrected deframer (see ## Findings): over a noiseless channel, every scheme delivers every packet the length field can carry; as written, QPSK delivers none (SimurfReceiver.QpskFrameLostAsWritten) and packets of 8192 bytes or more are misread under NumPy ≥ 2 |
| SimurfReceiver.ZerosCarryNoFrame | simurf/receiver.py:217-280 | an all-zero stream holds no frame for any threshold: both the corrected and the as-written deframer give None |
| SimurfReceiver.QpskStreamLost | simurf/receiver.py:190-280 | as written, an even-length `uint8` stream sent over QPSK is demodulated as zeros and neither deframer finds a frame in it |
| SimurfReceiver.QpskFrameLostAsWritten | simurf/transmitter.py:40-88 | as written, the QPSK symbols of every frame `packet_to_bits` builds demodulate to 8n + 32 zeros, from which neither deframer recovers a packet |
| SimurfReceiver.QpskReceiverGetsNothing | simurf/receiver.py:47-83 | as written, a QPSK receiver handed the transmitter's noiseless symbols decodes nothing, so `receive` returns None and counts no packet |
| SimurfReceiver.Mismatches | simurf/receiver.py:331 | the number of differing positions is at most the length, and 0 exactly when the strings are equal |
| SimurfReceiver.Ber | simurf/receiver.py:315-338 | over a non-empty common prefix the rate times its length is the number of mismatched bits (errors over length); it lies in [0, 1], is 0 exactly when that prefix is non-empty and error-free, and is 1 when either input is empty |
| SimurfReceiver.Receiver.constructor | simurf/receiver.py:15-45 | a new receiver keeps its scheme and threshold and has all counters at 0 |
| SimurfReceiver.Receiver.Decode | simurf/receiver.py:47-83 | over the corrected deframer (see ## Findings): a recovered packet is the deframing of the demodulated bits; no symbols give None |
| SimurfReceiver.Receiver.Receive | simurf/receiver.py:47-83 | over the corrected deframer (see ## Findings): the result is the decoding of the symbols; a packet counts once and adds its length, None changes no counter |
| SimurfReceiver.Receiver.EstimateBer | simurf/receiver.py:315-338 | the result is `Ber`, and the running error count grows by the mismatches on the common prefix |
| SimurfReceiver.Receiver.GetStats | simurf/receiver.py:340-356 | the packet error rate is 0 because the two packet counters always move together; the bit error rate is the errors over 8 times the bytes, or 0 |
| SimurfReceiver.Receiver.ResetStats | simurf/receiver.py:358-363 | all counters are back to 0 |
| SampleTransmitter.BitList.constructor | Sample/simurf/src/transmitter.py:28 | a bit list holds the bits it was built from |
| SampleTransmitter.ShiftedBits | Sample/simurf/src/transmitter.py:30 | the eight values `(byte >> i) & 1` for i = 7 down to 0 are the byte's bits, most significant first |
| SampleTransmitter.BytesToBits | Sample/simurf/src/transmitter.py:26-31 | the loop gives 8 bits per byte, each byte's bits most significant first |
| SampleTransmitter.SymbolFor | Sample/simurf/src/transmitter.py:41-50 | the first bit picks the sign of the real part and the second the sign of the imaginary part, negative for 1 |
| SampleTransmitter.SameTableAsQpskModulate | Sample/simurf/src/transmitter.py:43-50 | this table is the corrected, signed mapping of `qpsk_modulate` in simurf/utils/modulation.py (Modulation.QpskPoint); that function as written wraps on `uint8` input (see ## Findings) |
| SampleTransmitter.PairSymbols | Sample/simurf/src/transmitter.py:39-53 | one symbol per consecutive pair of bits |
| SampleTransmitter.BitsToSymbols | Sample/simurf/src/transmitter.py:33-53 | the caller's list is padded in place with one 0 when its length is odd, and one symbol per pair of the padded list is returned |
| SampleTransmitter.AddPreamble | Sample/simurf/src/transmitter.py:13-24 | 16 alternating preamble symbols, then the 8 delimiter symbols, all on the diagonal, then the payload symbols unchanged |
| SampleTransmitter.EvenBitCount | Sample/simurf/src/transmitter.py:36-37 | whole bytes give an even bit count, so the padding branch never fires on the transmit path |
| SampleTransmitter.PayloadSymbols | Sample/simurf/src/transmitter.py:103-113 | four symbols per byte |
| SampleTransmitter.Transmit | Sample/simurf/src/transmitter.py:103-126 | a payload that is not UTF-8 raises UnicodeDecodeError; otherwise the preamble is followed by the payload's symbols, and the symbol count returned is 4 per byte |
| SampleReceiver.Quadrant | Sample/simurf/src/receiver.py:58-68 | each of the two bits is 1 exactly when its coordinate is negative; zero counts as non-negative |
| SampleReceiver.QuadrantBits | Sample/simurf/src/receiver.py:53-70 | two bits per symbol |
| SampleReceiver.SymbolsToBits | Sample/simurf/src/receiver.py:53-70 | the loop gives the quadrant bits of every symbol in order |
| SampleReceiver.QuadrantInvertsTable | Sample/simurf/src/receiver.py:61-68 | the quadrant decision gives back the bit pair each transmitter symbol carries |
| SampleReceiver.DecideSymbols | Sample/simurf/src/receiver.py:53-70 | noiseless symbols of an even-length bit string decide back to that string |
| SampleReceiver.BitsToBytes | Sample/simurf/src/receiver.py:72-85 | the trailing len mod 8 bits are dropped and each group of 8 is packed with shift and or, most significant first |
| SampleReceiver.Receive | Sample/simurf/src/receiver.py:87-107 | no symbols give b""; otherwise the bytes packed from the quadrant bits, one per 4 symbols |
| SampleReceiver.ModemRoundTrip | Sample/simurf/src/receiver.py:53-85 | decoding the payload symbols the transmitter produced gives back the bytes |
| SimulationServer.BitErrors | Sample/simurf/src/simulation_server.py:129-135 | at most 8 differing bits per compared byte |
| SimulationServer.BitErrorsZero | Sample/simurf/src/simulation_server.py:129-135 | no bit differs exactly when the compared bytes are equal |
| SimulationServer.CountBitErrors | Sample/simurf/src/simulation_server.py:128-135 | the loop counts the differing bits of the common prefix; the count is at most 8 per byte and 0 exactly when the prefixes agree |
| SimulationServer.Server.constructor | Sample/simurf/src/simulation_server.py:32-39 | all five counters start at 0 |
| SimulationServer.Server.ProcessPacket | Sample/simurf/src/simulation_server.py:80-197 | every call counts one simulation; an exception counts nothing else; otherwise success exactly when the decoded bytes equal the payload, failure otherwise, and the bit counters grow by the compared bits and the errors among them; the bit error rate is the errors over the compared bits (0 when nothing was compared), lies in [0, 1], and is 0 exactly for an error-free prefix |
| SimulationServer.Server.ProcessPacketAsWritten | Sample/simurf/src/simulation_server.py:104-112 | as written the receive call raises TypeError unless an earlier step raised, so only the simulation count moves |
| SimulationServer.AsWrittenCountsNoOutcome | Sample/simurf/src/simulation_server.py:112 | as written, one packet leaves one simulation and no success, failure or bit count |
| SimulationServer.DeliveryCountsSuccess | Sample/simurf/src/simulation_server.py:116-142 | with the corrected call, an intact delivery counts as one success with no bit errors |
| RfEmulator.IpToBinary | Matlab/python_components/rf_emulator.py:29-34 | the loop gives 8 bits per byte, each byte's bits most significant first |
| RfEmulator.IndexFor | Matlab/python_components/rf_emulator.py:49-57 | every bit pair picks one of the four points; the second bit sets the sign of the real part and the first the sign of the imaginary part |
| RfEmulator.EmulatorSymbols | Matlab/python_components/rf_emulator.py:43-59 | one symbol per complete pair, the point its pair selects |
| RfEmulator.QpskModulation | Matlab/python_components/rf_emulator.py:36-59 | the bits are padded with one 0 to an even length and each pair becomes its point |
| RfEmulator.Interleaved | Matlab/python_components/rf_emulator.py:90-92 | two floats per sample |
| RfEmulator.Interleave | Matlab/python_components/rf_emulator.py:87-92 | even positions carry the real parts and odd positions the imaginary parts |
| RfEmulator.ProcessPacket | Matlab/python_components/rf_emulator.py:97-107 | four symbols per byte: the modulation of the packet's bits |
| NetworkManager.ArgMinUpTo | Matlab/python_components/network_manager.py:96-97 | `np.argmin` picks one of the candidate points |
| NetworkManager.ArgMinUpToSpec | Matlab/python_components/network_manager.py:96-97 | the picked point is at least as near as every point and strictly nearer than every earlier one |
| NetworkManager.NearestIndex | Matlab/python_components/network_manager.py:96-97 | the nearest index is one of the four |
| NetworkManager.TiesGoToLowestIndex | Matlab/python_components/network_manager.py:97 | a sample equally far from several points goes to the lowest index: 0 and j go to 0, -1 goes to 1 |
| NetworkManager.NearestOfPoint | Matlab/python_components/network_manager.py:91-97 | every constellation point is decided to its own index |
| NetworkManager.PairFor | Matlab/python_components/network_manager.py:102-110 | every index gives a pair of bits |
| NetworkManager.PairForInverts | Matlab/python_components/network_manager.py:102-110 | the pair table inverts the emulator's index table |
| NetworkManager.Decided | Matlab/python_components/network_manager.py:95-110 | one sample is decided to two bits |
| NetworkManager.DecidedPoint | Matlab/python_components/network_manager.py:95-110 | a noiseless sample is decided to the pair it was sent for |
| NetworkManager.DemodulatedBits | Matlab/python_components/network_manager.py:87-112 | two bits per sample |
| NetworkManager.Nearest | Matlab/python_components/network_manager.py:96-97 | the scan over the four distances returns the nearest index |
| NetworkManager.SimpleDemodulate | Matlab/python_components/network_manager.py:87-112 | the loops give exactly the demodulated bits of the samples |
| NetworkManager.DemodulatedFromPairs | Matlab/python_components/network_manager.py:101-110 | bits whose every pair is the matching sample's decision are the demodulated bits |
| NetworkManager.DemodulateInverts | Matlab/python_components/network_manager.py:87-112 | on noiseless samples the demodulator returns the bits the emulator modulated |
| NetworkManager.BitsToBytes | Matlab/python_components/network_manager.py:118-131 | one byte per complete group of 8 bits, which unpack to those bits |
| NetworkManager.Deinterleave | Matlab/python_components/network_manager.py:150-157 | an odd float count is skipped; otherwise sample k is data[2k] + j·data[2k+1] |
| NetworkManager.DeinterleaveInterleaved | Matlab/python_components/network_manager.py:150-157 | de-interleaving inverts the emulator's interleaving |
| NetworkManager.InterleavedDeinterleave | Matlab/python_components/rf_emulator.py:87-92 | interleaving inverts de-interleaving on every even-length float stream |
| NetworkManager.ProcessSampleFile | Matlab/python_components/network_manager.py:146-171 | an odd float count forwards nothing; otherwise the packed demodulated bytes are forwarded exactly when there is at least one |
| NetworkManager.PacketRoundTrip | Matlab/python_components/network_manager.py:146-167 | a non-empty packet through the emulator and back, with noiseless samples, is de-interleaved to the sent symbols, packs back to the packet, and is therefore forwarded (`Some(packet)`, the result `ProcessSampleFile` states) |
| PacketFilter.Slice | Matlab/python_components/main.py:18 | a slice past the end is clipped, and within bounds it is the plain subsequence |
| PacketFilter.IsIpv4UdpAsWritten | Matlab/python_components/main.py:13-23 | it raises IndexError exactly on frames with the IPv4 EtherType and at most 23 bytes, and answers false on frames shorter than 14 bytes |
| PacketFilter.ShortIpv4FrameRaises | Matlab/python_components/main.py:18-22 | a 14-byte frame with EtherType 0x0800 makes the filter raise IndexError |
| PacketFilter.IsIpv4Udp | Matlab/python_components/main.py:13-23 | the intended filter answers on every frame: a frame too short to hold the protocol field is not UDP, and a UDP answer means EtherType 0x0800 and protocol 17 |
| PacketFilter.FilterAgrees | Matlab/python_components/main.py:13-23 | wherever the filter as written answers, and on every frame long enough to hold the protocol field, it answers as the corrected filter |
| PacketFilter.IsLoopPacket | Matlab/python_components/main.py:26-32 | on a frame of 12 bytes or more it holds exactly when the destination MAC equals the source MAC |
| PacketFilter.Emulator.constructor | Matlab/python_components/main.py:44 | the packet count starts at 0 |
| PacketFilter.Emulator.Step | Matlab/python_components/main.py:46-84 | over the corrected filter (see ## Findings): a capture is forwarded exactly when it has a payload, is IPv4/UDP and is not a loop frame; only a forwarded frame is counted. As written, a 14-23-byte frame with EtherType 0x0800 ends the capture loop with IndexError |
| BoundedDeque.LastN | Matlab/shared/metrics.py:40 | the window holds min(len, n) elements: the most recent ones, oldest first |
| BoundedDeque.Push | Matlab/shared/metrics.py:52 | appending grows a deque below maxlen by one and keeps a full one at maxlen, with the new element last |
| BoundedDeque.PushLastN | Matlab/shared/metrics.py:40-52 | appending to the last n elements gives the last n elements of the longer history |
| Statistics.Min | Matlab/shared/metrics.py:90 | `min` is an element of the list and no larger than any element |
| Statistics.Max | Matlab/shared/metrics.py:91 | `max` is an element of the list and no smaller than any element |
| Statistics.SumBetween | Matlab/shared/metrics.py:88 | bounds on every element bound the sum by the count times the bound |
| Statistics.Mean | Matlab/shared/metrics.py:88 | the mean taken once per element adds up to the sum |
| Statistics.MeanWithin | Matlab/shared/metrics.py:88 | the mean lies within any bounds on the elements, so between the minimum and the maximum |
| Statistics.DivBetween | Matlab/shared/metrics.py:88 | dividing a sum bounded by n·lo and n·hi by n gives a value between lo and hi |
| Statistics.Present | Matlab/shared/metrics.py:74-76 | the filtered list is no longer than the readings and holds exactly the values some reading holds; when every entry holds a reading it is those readings, in order |
| Statistics.PresentCount | Matlab/shared/metrics.py:74-76 | the filtered list keeps one value per entry that holds a reading: its length is the number of such entries |
| Statistics.PresentNonEmpty | Matlab/shared/metrics.py:86 | the filtered list is non-empty exactly when some entry holds a reading |
| Statistics.DivTimes | Matlab/shared/metrics.py:123 | dividing by a non-zero quantity and multiplying back gives the original |
| Statistics.Quotient | Matlab/shared/metrics.py:123 | the quotient times the divisor is the dividend |
| Statistics.FractionBounds | Matlab/shared/metrics.py:81 | a count over a larger positive count lies in [0, 1], is 0 only for a zero count, and times the larger count gives the count back |
| Statistics.FractionBelowOne | Matlab/python_components/receiver_app.py:68 | a count over a strictly larger count is below 1, so a loss rate with at least one received packet stays below 1 |
| Statistics.Describe | Matlab/shared/metrics.py:86-92 | a summary exists exactly for a non-empty list; its minimum and maximum are elements bounding every element, and its mean is the mean of the list and lies between them |
| Statistics.ConstantWindow | Matlab/shared/metrics.py:86-92 | a constant list reports that constant as mean, minimum and maximum |
| Metrics.ErrorCount | Matlab/shared/metrics.py:55-56 | at most one per packet, and 0 exactly when no packet reports a positive bit-error count |
| Metrics.MetricsCollector.constructor | Matlab/shared/metrics.py:32-43 | a new collector has an empty window, zero totals and the given window size |
| Metrics.MetricsCollector.AddPacket | Matlab/shared/metrics.py:45-56 | the packet is appended to the bounded window, counted, and counted as an error exactly when it reports a positive bit-error count |
| Metrics.MetricsCollector.GetSummary | Matlab/shared/metrics.py:58-113 | an empty window reports zeros and no statistics; otherwise the total counts every packet ever added, the window the last min(total, size), the error rate is the errored packets over all packets ever added, so lies in [0, 1] and is 0 exactly without errors, and the BER, latency and SNR statistics are the summaries of exactly the windowed packets that report that reading (BER statistics appear exactly when some windowed packet reports a BER) |
| Metrics.MetricsCollector.GetThroughput | Matlab/shared/metrics.py:115-123 | a non-positive run time gives 0; otherwise the rate times the run time is the packet total |
| Metrics.MetricsCollector.Reset | Matlab/shared/metrics.py:159-164 | an empty window and zero totals |
| Metrics.FillCollector | Matlab/shared/metrics.py:40-80 | after n packets with window w the summary counts n in total and min(n, w) in the window |
| Metrics.PerformanceMonitor.constructor | Matlab/shared/metrics.py:170-180 | zero counters, the given interval and the given clock reading |
| Metrics.PerformanceMonitor.Update | Matlab/shared/metrics.py:182-213 | before the interval elapses the packet is only counted; once it has, the packet and bit rates over every packet since the last report are returned, kbps and Mbps are bps over 1000 and 10^6, and the counters restart; a zero elapsed time raises ZeroDivisionError |
| Metrics.ScaledRate | Matlab/shared/metrics.py:202-203 | bits over (elapsed · scale), times scale, is bits over elapsed |
| Analyzer.ErroredReports | Matlab/analyzer/analyzer_app.py:103 | at most one per report, and 0 exactly when no report has a positive byte-error count |
| Analyzer.Bers | Matlab/analyzer/analyzer_app.py:92 | one optional BER per report, in order |
| Analyzer.PacketErrorRate | Matlab/analyzer/analyzer_app.py:103-104 | the rate lies in [0, 1] and times the window length is the number of errored reports |
| Analyzer.RunningStatistics | Matlab/analyzer/analyzer_app.py:90-105 | statistics exist exactly when some report carries a BER; the minimum and maximum are BERs of reports in the window and bound every such BER; the average is the mean of exactly the BERs present; the PER counts errored reports over the whole window |
| Analyzer.WindowStatistics | Matlab/analyzer/analyzer_app.py:86-88 | statistics appear exactly when the window holds at least ten reports and some carries a BER |
| Analyzer.MetricsAnalyzer.constructor | Matlab/analyzer/analyzer_app.py:26-50 | a new analyzer has an empty history and the given window size |
| Analyzer.MetricsAnalyzer.ProcessMetrics | Matlab/analyzer/analyzer_app.py:63-88 | the report is counted and appended to the bounded history, which holds min(count, window size) reports; the statistics are those of the history exactly when it holds ten reports, one with a BER |
| Config.Numeric | Matlab/shared/config_utils.py:93 | a value compares as a number exactly when it is a number or a boolean |
| Config.FirstMissing | Matlab/shared/config_utils.py:87-89 | nothing is missing exactly when every required key is present; otherwise the first missing key in order is reported |
| Config.ValidateChannel | Matlab/shared/config_utils.py:83-99 | valid exactly when all three keys are present, the SNR is in [-20, 60] and the sample rate positive; a missing key raises ConfigurationError before any comparison; with all keys present, TypeError exactly for a non-numeric SNR, or an in-range SNR with a non-numeric rate; any other failure is ConfigurationError |
| Config.ValidateNetwork | Matlab/shared/config_utils.py:101-111 | valid exactly when all three keys are present and the mode is "udp" or "tcp"; otherwise ConfigurationError |
| Config.Load | Matlab/shared/config_utils.py:68-81 | a read error passes through; a read object is returned exactly when the validator accepts it |
| Config.Walk | Matlab/shared/config_utils.py:150-158 | the loop returns the value at the dotted path, or the default once a step is not an object holding the key |
| Config.LookupNest | Matlab/shared/config_utils.py:150-158 | a path through nested objects reaches the value stored there |
| Config.GetConfigValue | Matlab/shared/config_utils.py:126-158 | a missing configuration directory raises ConfigurationError before the fallback (`SimURFConfig()`, lines 32-33 and 137); otherwise the channel configuration is used when it loads and validates, else the network one; ConfigurationError from both gives the default, and any other error is raised |
| TrafficReceiver.ParsePacket | Matlab/python_components/receiver_app.py:31-52 | 16 bytes or more are read as the big-endian header (u32 sequence number, u64 timestamp, u32 size) and the rest as data; a shorter packet has no header, its length as size and all of it as data |
| TrafficReceiver.AppendLatencyKeepsLast | Matlab/python_components/receiver_app.py:125-127 | appending through the cap keeps exactly the last 1000 samples ever taken |
| TrafficReceiver.MaxSeq | Matlab/python_components/receiver_app.py:21 | -1 exactly before any sequence number |
| TrafficReceiver.MaxSeqIsMax | Matlab/python_components/receiver_app.py:120 | the largest number seen is one of them and no smaller than any |
| TrafficReceiver.MaxSeqAppend | Matlab/python_components/receiver_app.py:120 | `max(last_seq, seq)` is the maximum over the longer sequence |
| TrafficReceiver.ElementsMembers | Matlab/python_components/receiver_app.py:113-118 | the set holds exactly the numbers that occur in the sequence |
| TrafficReceiver.ElementsAppend | Matlab/python_components/receiver_app.py:118 | one more number adds it to the set |
| TrafficReceiver.SeenStep | Matlab/python_components/receiver_app.py:113-118 | a new number grows the set by one and a seen one counts as a duplicate, so distinct numbers plus duplicates count every arrival |
| TrafficReceiver.PacketLossRate | Matlab/python_components/receiver_app.py:68 | 0 when nothing was received; otherwise lost over received plus lost, in [0, 1) and 0 exactly when nothing was lost |
| TrafficReceiver.WirelessReceiver.constructor | Matlab/python_components/receiver_app.py:17-27 | all counters at 0, no sequence number seen, `last_seq` -1 and no latency sample |
| TrafficReceiver.WirelessReceiver.TrackSequence | Matlab/python_components/receiver_app.py:99-120 | a gap after the largest number seen adds the missing count to the losses, a number at or below it is out of order, a repeat is a duplicate, and the largest number seen is updated |
| TrafficReceiver.WirelessReceiver.CountGap | Matlab/python_components/receiver_app.py:103-111 | against the number after the largest seen, a larger number adds the gap to the losses and a smaller one counts as out of order; nothing else changes |
| TrafficReceiver.WirelessReceiver.RecordLatency | Matlab/python_components/receiver_app.py:124-127 | the sample is appended and only the last 1000 are kept |
| TrafficReceiver.WirelessReceiver.ReceivePacket | Matlab/python_components/receiver_app.py:89-127 | every packet is counted with its bytes; a packet without a header changes nothing else; one with a header is tracked: the last number becomes the larger of it and the packet's number, a forward gap adds the skipped numbers to the loss count, a number not above the last adds one out-of-order packet, a number seen before adds one duplicate, and a non-zero timestamp gives a latency sample |
| TrafficReceiver.WirelessReceiver.TakeSample | Matlab/python_components/receiver_app.py:123-127 | a zero (falsy) timestamp takes no sample; any other appends the latency |
| TrafficReceiver.WirelessReceiver.LossRate | Matlab/python_components/receiver_app.py:68 | the reported loss rate lies in [0, 1) and is 0 before any packet |
| TrafficSender.Repeat | Matlab/python_components/sender_app.py:37 | n copies of a character |
| TrafficSender.PaddedText | Matlab/python_components/sender_app.py:36-38 | the message followed by 'X' up to 20 characters short of the payload size, never shorter than the message |
| TrafficSender.PatternBlock | Matlab/python_components/sender_app.py:42 | the block holds 0, 1, ..., 255 |
| TrafficSender.Blocks | Matlab/python_components/sender_app.py:43-44 | n blocks hold byte k mod 256 at position k |
| TrafficSender.PatternPayload | Matlab/python_components/sender_app.py:40-44 | the payload size bytes (or size mod 256 for a negative size, as Python floors) each equal to their position mod 256 |
| TrafficSender.DataPayload | Matlab/python_components/sender_app.py:22-33 | a header field out of range is a struct error, a size below 16 with fields in range a ValueError, otherwise the payload has the payload size and ends in the random bytes |
| TrafficSender.GeneratePayload | Matlab/python_components/sender_app.py:22-46 | "data": a header field out of range raises struct.error, a size below 16 ValueError, otherwise size bytes ending in the random bytes; "text": the UTF-8 padded message; "pattern": the counting pattern; anything else raises UnboundLocalError |
| TrafficSender.DataPayloadParses | Matlab/python_components/receiver_app.py:31-43 | the traffic receiver reads back the sequence number, timestamp, size and random bytes a data payload carries |
| TrafficSender.WirelessSender.constructor | Matlab/python_components/sender_app.py:10-17 | the sequence number starts at 0 |
| TrafficSender.WirelessSender.SendTraffic | Matlab/python_components/sender_app.py:48-92 | the k-th packet sent is the data payload of the k-th attempt whose send succeeded, numbered from the starting sequence number, so a failed send is retried under the same number; the sequence number advances by the packets sent; when the loop ends normally it has sent the smaller of the limit and the number of successful sends; a payload error is raised by the first attempt whose payload fails to build, after exactly the successful sends before it, and is a struct error or ValueError |
| TrafficSender.Deliveries | Matlab/python_components/sender_app.py:75-85 | the attempts among the first n whose send succeeded, in order: no more than n, each one delivered |
| TrafficSender.DeliveriesPrefix | Matlab/python_components/sender_app.py:75-85 | the successful sends among the first i attempts are the first ones among any longer run |
| TrafficSender.SentParses | Matlab/python_components/receiver_app.py:31-43 | the traffic receiver reads the k-th sent packet's sequence number back as the starting number plus k |
| SenderApp.WirePayload | Matlab/sender/sender_app.py:86-96 | the encrypt-then-repeat step succeeds exactly for a non-empty message and, with FEC on, a factor in [1, 15]; the result is the ciphertext length times the factor |
| SenderApp.BuildPacket | Matlab/sender/sender_app.py:86-106 | a packet is built exactly when the payload step succeeds and `pack` accepts the fields; an empty message raises ValueError; the packet is header plus payload |
| SenderApp.Successes | Matlab/sender/sender_app.py:130-149 | no more successes than messages |
| SenderApp.NothingSent | Matlab/sender/sender_app.py:130-149 | a batch of empty or undelivered messages sends nothing |
| SenderApp.SuccessesStep | Matlab/sender/sender_app.py:145-147 | a sent message counts one and numbers the rest after it; an unsent one counts nothing and keeps the number |
| SenderApp.Sender.constructor | Matlab/sender/sender_app.py:30-58 | the route and FEC settings are kept and the sequence number starts at 0 |
| SenderApp.Sender.SendMessage | Matlab/sender/sender_app.py:69-128 | success exactly when the packet builds and is delivered, and only then does the sequence number advance |
| SenderApp.Sender.SendBatch | Matlab/sender/sender_app.py:130-149 | the success count is the number of messages sent, and the sequence number advances by it |
| ReceiverApp.FecStep | Matlab/receiver/receiver_app.py:109-115 | without FEC the payload passes with no correction; with FEC, ValueError exactly for a factor outside [1, 15] or a length not divisible by it |
| ReceiverApp.Receive | Matlab/receiver/receiver_app.py:101-126 | every failure is a ValueError, an unpack failure is a failure, a success carries the header's sequence number and timestamp, and without FEC the plaintext is the payload less the nonce |
| ReceiverApp.Receiver.constructor | Matlab/receiver/receiver_app.py:30-63 | the FEC settings are kept and all four counters start at 0 |
| ReceiverApp.Receiver.ProcessPacket | Matlab/receiver/receiver_app.py:83-166 | every packet is counted; a success exactly when the steps succeed; every failure is a ValueError and so counts as a CRC error, never as a decode error |
| ReceiverApp.RoundTrip | Matlab/receiver/receiver_app.py:83-166 | a packet the sender built, received unaltered with the same FEC setting, yields its header fields, the UTF-8 bytes of the message and no corrections |
| ReceiverApp.CorruptedPacketRejected | Matlab/receiver/receiver_app.py:158-162 | changing any payload byte of a built packet makes the receiver fail with ValueError, a CRC error |

## Left out

- Pulse shaping and root-raised-cosine filters, the carrier, matched filtering and timing recovery of both modems (`simurf/transmitter.py:90-161`, `simurf/receiver.py:85-188`, `Sample/simurf/src/transmitter.py:55-101`): floating-point signal processing. A transmission ends, and a reception starts, at the symbols.
- Channel effects (AWGN, multipath, frequency offset) of the RF emulator and of the MATLAB channel: randomness and floating point. The channel is a parameter, or the outcome of the chain is.
- `calculate_theoretical_ber`: uses `erfc` in floating point.
- `generate_key`: hashing and randomness. Keys and nonces are parameters.
- Modulation.SoftQpskDemodulate: requires a non-zero noise variance. NumPy would return infinities or NaN for zero.
- SimurfTransmitter.PacketToBits: requires a packet shorter than 65536 bytes. For a longer packet, the `>u2` array of the length (`simurf/transmitter.py:58-60`) raises OverflowError under NumPy 2 (it wraps under NumPy 1.x).
- SimurfTransmitter.Transmitter.Transmit: requires a packet shorter than 65536 bytes, for the same reason: a longer one raises OverflowError under NumPy 2 (wraps under NumPy 1.x).
- The padding branch of `bits_to_packet` (`simurf/receiver.py:266-271`) is not modelled. The extracted data is always a multiple of 8 bits (`SimurfReceiver.PackAligned`), so the branch never fires.
- The QPSK plot labels follow the comment at `simurf/utils/modulation.py:81`, not the code's mapping. The model keeps the code's mapping, and `Modulation.QpskPlotLabelsDisagree` shows where the two differ.
- Floating-point rounding is not modelled: values are exact reals.
- The 1/√2 and 1/√10 normalisation of the constellations is dropped. A positive scale changes no sign and no nearest-point decision.
- Nearest-point decisions compare squared distances, where the source compares absolute distances. Both give the same order.
- NumPy's fixed-width wrap of large sums is not modelled, except the two wraps listed under ## Findings (the `uint8` QPSK coordinates and the `uint16` frame length).
- Metrics.MetricsCollector.GetSummary: states the mean, minimum and maximum of each reading, but not the medians of `get_summary` (`Matlab/shared/metrics.py:89`, `:98`, `:108`) nor the latency standard deviation (`:101`): they need sorting and square roots over floats.
- Reading the configuration files and parsing JSON: a load arrives as the parsed object or the error it raised. A JSON document whose top level is not an object is not represented.
- TrafficSender.WirelessSender.SendTraffic: requires a packet limit, and stops when its given loop iterations run out. The run-for-a-duration mode (no limit, or a limit of 0) and the sleeps of the traffic patterns depend on the clock.
- Socket I/O, the MATLAB engine, scapy capture and `transmit_packet`, logging, `export_csv`/`export_json`, `_save_metrics`, `_print_summary` and all printed output: I/O.
- `load_config`/`get_default_config` of the servers, `load_scenario` and the `main` functions: file and command-line handling.
- SenderApp.Sender.SendMessage: the message is a Dafny `string`, which holds Unicode scalar values only. A Python `str` may also hold a lone surrogate, on which `message.encode()` (`Matlab/sender/sender_app.py:88`) raises UnicodeEncodeError, caught so that the send returns False; that failure is not modelled.
- SenderApp.Sender.SendMessage: the performance monitor (`Matlab/sender/sender_app.py:59`, updated at `:114`) is not modelled. Its interval is 5.0 seconds, so its update never divides by a zero elapsed time and cannot raise; it changes no outcome of the send.
- ReceiverApp.Receiver.ProcessPacket: returns the plaintext bytes. `decode(errors='replace')`, the metrics collector and latency recording of the receiver are not modelled.
- Inet.InetAton, Inet.ParseOctet, Inet.NtoaAton: only the canonical dotted quad is accepted. `socket.inet_aton` (`Matlab/shared/packet_format.py:64-65`) also packs the shorthand forms with fewer than four parts ("127.1"), octal and hexadecimal parts ("010.0.0.1", "0x7f.0.0.1"), and text followed by whitespace and anything after it, which glibc ignores; the model rejects all of these, so `NtoaAton`'s claim that accepted text is canonical holds only on the modelled domain.

## Findings

| source | as written | input that shows it | evidently intended | confidence | as-written member | corrected member |
|---|---|---|---|---|---|---|
| simurf/receiver.py:241-245 | under NumPy ≥ 2 (NEP 50 promotion), the length read from the frame is a `uint16` scalar and `length_bytes * 8` stays `uint16`, wrapping modulo 65536 (NumPy 1.x promotes it to int64 and does not wrap) | under NumPy ≥ 2, an 8192-byte packet starting with byte 0x35 is read back as an empty payload | the payload length in bits is 8 × length, without wrap-around | not executed | SimurfReceiver.BitsToPacketAsWritten / SimurfReceiver.LargeFrameMisread | SimurfReceiver.BitsToPacket / SimurfReceiver.FramingRoundTrip |
| Matlab/python_components/main.py:18-22 | after the EtherType matches, byte 23 is indexed without a length check | a 14-byte frame whose bytes 12-13 are 08 00 raises IndexError | a frame too short to hold the protocol field is not UDP | not executed | PacketFilter.IsIpv4UdpAsWritten / PacketFilter.ShortIpv4FrameRaises | PacketFilter.IsIpv4Udp |
| simurf/utils/modulation.py:82-83 | on the `uint8` frame of `packet_to_bits` (even length, so the promoting `np.append` at :73-74 never runs), `1 - 2 * bit_pairs[:, 0]` is computed in `uint8` under NumPy 1.x and 2 alike: a 1 bit wraps to 255, and every QPSK coordinate is positive | any packet sent with 'qpsk': it demodulates to all zeros and `receive` returns None; the self-test bits 10110010 (`simurf/test_sample.py:95`, `:111-113`) read back as eight zeros | bit b is sent as the signed coordinate 1 − 2b ∈ {+1, −1} | not executed | Modulation.QpskModulateAsWritten / SimurfReceiver.QpskFrameLostAsWritten | Modulation.QpskModulate / Modulation.QpskRoundTrip |
| Sample/simurf/src/simulation_server.py:112 | `receiver.receive` is called with two arguments; `Sample/simurf/src/receiver.py:87` takes one | any packet: the call raises TypeError, so no success, failure or bit error is ever counted | the call passes only the received signal | not executed | SimulationServer.Server.ProcessPacketAsWritten / SimulationServer.AsWrittenCountsNoOutcome | SimulationServer.Server.ProcessPacket / SimulationServer.DeliveryCountsSuccess |
