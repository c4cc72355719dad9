# PS/2 keyboard host driver (eLua `keyboard` module)

This project models the host side of the PS/2 keyboard protocol that
`keyboard.c` implements by polling GPIO pins. It covers four layers, each a module:

- `Codec` (codec.dfy): the odd-parity bit sent after a data byte (`genCRC`) and the
  check applied to a received 11-bit word (`checkCRC`). Also the bit arithmetic
  both are stated in: words read least-significant bit first, popcounts, bit `k` of a number.
- `Link` (link.dfy):
  - receiving one byte (`keyboard_getchar`). A frame is the eleven data-line
    levels the host samples. It is shifted into a word and checked under the three
    ignore flags.
  - sending one byte (`keyboard_write`). The result is the ordered list of writes to the
    clock and data pulldown outputs: the request-to-send handshake, eight data
    bits, the parity bit and the stop bit.
- `Typematic` (typematic.dfy): the rate and delay tables of
  `keyboard_setRepeatRateAndDelay`, its nearest-entry scan with early exit,
  and the `rateId | delayId << 5` parameter byte.
- `Commands` (commands.dfy):
  - the command and selector codes, and the selectors the event-filtering commands choose;
  - a `Keyboard` class for the driver's global state: the flags `igStart`, `igStop` and
    `igParity`, the bytes sent so far, and the keyboard's replies as a script of frames
    with a cursor. Its methods are the driver's commands. Each one states exactly which
    bytes it sends and how many replies it reads, including the early return on a reply
    that is not ACK.
- `Scenarios` (scenarios.dfy): short client methods that exercise the command
  contracts on sample conversations; they are proved, not executed. In one, a refused second key code aborts
  per-key filtering. Another has scan-code sets out of range. A third checks a
  rate of 0 and a delay of 600, which become 20 and 500. The last takes any byte
  with an even number of ones and flips its parity bit: the frame is refused,
  then accepted once parity checking is off.

Two behaviours of the C code are kept, although a cleaner driver would differ:

- **The parity check accepts every frame whose parity position is 1.** The odd
  parity of the PS/2 protocol would refuse half of those frames. `checkCRC` compares the low bit of the ones
  count with `tmp & 512`. That mask is 0 or 512, never 1, so a word whose parity
  position is 1 is always accepted. With that position 0, the word is accepted
  exactly when the data bits hold an odd number of ones. `Codec.CheckCRC` and
  `Link.ParityAccepted` model this as written. `Link.ParityCheckCases` states how it
  relates to true odd parity (`Link.ParityCorrect`).
- **A refused frame reads as the byte 0.** `keyboard_getchar` returns `ERROR` (0) for a
  frame that fails an enabled check, so a refused frame reads the same as a data
  byte of 0. The model returns 0 in the same way.

The rows below state their properties in terms of reference definitions that
carry the source's behaviour directly:
- `Link.Decode` (keyboard.c:225-241): the byte `keyboard_getchar` returns.
- `Link.Shifted` (keyboard.c:219-222): the receive register.
- `Link.Encode` and `Link.WriteTrace` (keyboard.c:283-303): the frame and the pin writes of a send.
- `Commands.SingleKeyOpcode` (keyboard.c:361-378) and `Commands.AllKeysOpcode` (keyboard.c:443-461): the selectors.
- `Commands.LedByte` (keyboard.c:328-331): the LED byte.

## Model

| member | source | states |
|---|---|---|
| Codec.GenCRC | keyboard.c:121-139 | the loop's count of ones yields the odd-parity bit: 1 exactly when the byte has an even number of ones |
| Codec.ParityBitOdd | keyboard.c:137-138 | a byte together with its parity bit holds an odd number of ones |
| Codec.CheckCRC | keyboard.c:141-166 | accepts exactly when bit 9 is set or bits 1..8 hold an odd number of ones (the `tmp & 512` comparison) |
| Codec.PopCountOfWord | keyboard.c:155-162 | counting the set bits of an assembled word counts the ones among the bits it was built from |
| Codec.OnesOfByte | keyboard.c:128-135 | the eight bits of a byte, spelled out, hold as many ones as the byte's popcount |
| Codec.WordBit | keyboard.c:219-222 | bit k of the number a bit sequence spells, least significant first, is the k-th element |
| Codec.WordOfBits | keyboard.c:290-302 | spelling out the low n bits of a number below 2^n and reading them back gives the number |
| Codec.FrameFields | keyboard.c:225-239 | for an 11-bit word, `(w >> 1) & 255` is the value of positions 1..8, bit 0 is the start level, bits 9 and 10 the parity and stop levels |
| Link.ShiftedWord | keyboard.c:209-222 | after k of the eleven sampled levels, the register shifted right and topped at bit 10 holds those levels in its k highest of 11 bits, the first level lowest |
| Link.FrameChecks | keyboard.c:224-239 | in the assembled word, bit 0 is the start level, bit 10 the stop level, the `checkCRC` condition is `ParityAccepted`, and `(w >> 1) & 255` is the payload |
| Link.ShiftedTop | keyboard.c:219-222 | before the eleventh level, bit 10 of the halved register is clear, so or-ing in `1 << 10` adds 1024 |
| Link.ReadFrame | keyboard.c:204-242 | the shift loop followed by the start, stop and parity checks returns `Decode` of the sampled frame: ERROR when an enabled check fails, otherwise the byte at positions 1..8 |
| Link.EncodeDecode | keyboard.c:276-309 | the frame the host sends for any byte has correct odd parity, passes every check and decodes back to the byte |
| Link.ParityCheckCases | keyboard.c:141-166 | the driver's check accepts every correctly parity-coded frame; with parity level 0 it accepts only those; with parity level 1 it accepts every frame |
| Link.ParityCorrectBit | keyboard.c:121-139 | a frame has correct odd parity exactly when its parity level is `genCRC` of the byte it carries |
| Link.CorruptedParity | keyboard.c:233-235 | a frame with its parity bit flipped is refused with parity checking on only when the true parity bit was 1, and is always delivered with checking off |
| Link.IgnoringAllChecks | keyboard.c:225-235 | with no flag equal to USE, every frame yields its payload |
| Link.EncodePayload | keyboard.c:283-303 | the frame sent for a byte carries that byte in positions 1..8, and those positions hold its popcount of ones |
| Link.WriteTraceShape | keyboard.c:283-303 | the send trace is 14 writes: the handshake, bit k of the byte in write 4+k, the parity bit, then the stop level 1; its data levels are the byte's frame |
| Link.WriteFrame | keyboard.c:276-309 | the writes are `WriteTrace(d)`: the handshake (clock low, 120 microseconds, data low, clock released), then one data write for each of frame positions 1..10 (the eight data bits LSB first, the genCRC bit, the stop level 1), and nothing in period 11 |
| Link.DataLineOfSend | keyboard.c:283-303 | the levels a send drives onto the data line, in order, are exactly the 11-bit frame of the byte |
| Link.SendReceive | keyboard.c:204-309 | sampling the levels a send drives gives back the sent byte under any flags |
| Typematic.Abs | keyboard.c:72-79 | the result is the argument or its negation, and never negative |
| Typematic.NearestIndex | keyboard.c:507-536 | the scan with its early break returns an entry no farther from the request than any other, and the first such entry |
| Typematic.FartherBeyond | keyboard.c:521-522 | in a monotone table, once an entry is farther than the best so far, every later entry is farther too, so breaking early loses nothing |
| Typematic.NearestUnique | keyboard.c:513-523 | the nearest entry (ties to the lowest index) is unique |
| Typematic.TablesMonotone | keyboard.c:493-497 | the rate table has 32 strictly decreasing entries; the delay table has 4 strictly increasing ones |
| Typematic.DecreasingEnds | keyboard.c:507-523 | in a decreasing table, a request at or above the first entry picks entry 0 and one at or below the last picks the last entry |
| Typematic.IncreasingEnds | keyboard.c:525-536 | in an increasing table, a request at or below the first entry picks entry 0 and one at or above the last picks the last entry |
| Codec.OrDisjoint | keyboard.c:538-539 | or-ing a number below 2^k with a multiple of 2^k gives their sum, so the or of `rateId` and `delayId << 5` is `rateId + 32 * delayId` |
| Typematic.ControlByte | keyboard.c:538-539 | the parameter byte is below 128, its low five bits are the rate index and its next two the delay index |
| Typematic.Examples | keyboard.c:493-497 | 300 and 250 pick entry 0 (300, 250); a rate of 0 picks entry 31 (20); a delay of 600 picks entry 1 (500) |
| Commands.SingleKeySelector | keyboard.c:361-378 | a selector is sent exactly when both arguments are USE or IGNORE and not both USE; the keyboard reads it as break and typematic messages on exactly for the arguments equal to USE |
| Commands.AllKeysSelector | keyboard.c:443-461 | the same for the all-keys selectors 0xF9, 0xF8, 0xF7 |
| Commands.LedLayout | keyboard.c:328-331 | for lamp states 0 or 1 the byte is below 8 with scroll lock in bit 0, num lock in bit 1, caps lock in bit 2 |
| Commands.AckRunGrow | keyboard.c:389-403 | a run of k leading ACK replies followed by another ACK is a run of k + 1 |
| Commands.AckRunStop | keyboard.c:389-403 | a run of k leading ACK replies followed by a reply that is not ACK has length k under every larger cap: the loop stops there |
| Commands.Keyboard.constructor | keyboard.c:67-70 | every check starts enforced; nothing sent, no reply read |
| Commands.Keyboard.SetFlags | keyboard.c:172-181 | each flag becomes the low byte of its argument; nothing else changes |
| Commands.Keyboard.Write | keyboard.c:276-309 | exactly the byte is appended to the bytes sent; flags and replies untouched |
| Commands.Keyboard.GetChar | keyboard.c:204-242 | returns the decoding of the next reply frame under the current flags and advances the cursor by one |
| Commands.Keyboard.SetLeds | keyboard.c:326-337 | sends 0xED then the LED byte; reads no reply |
| Commands.Keyboard.DisableKeyEvents | keyboard.c:345-409 | sends the selector (if any), then one key code per ACK reply; the first reply that is not ACK ends the command; ECHO is sent only when every reply was ACK. The bytes sent and the replies read are given exactly in terms of the ACK run |
| Commands.Keyboard.WriteSelector | keyboard.c:361-378 | sends the selector byte when there is one, nothing otherwise |
| Commands.Keyboard.SendKeyList | keyboard.c:380-406 | reads a reply; on ACK sends the key codes, and ECHO only after every code was acknowledged. With n the number of leading ACK replies, the bytes sent and the replies read are given exactly in terms of n |
| Commands.Keyboard.SendKeyCodes | keyboard.c:389-403 | sends key codes while the replies are ACK: with n leading ACKs among the replies, it sends n + 1 codes and reads n + 1 replies when n is short of the list, all codes and all replies otherwise, and reports whether every reply was ACK |
| Commands.Keyboard.ConfigKeys | keyboard.c:417-479 | sends 0xFA; on ACK the selector (if any); on a second ACK sends ECHO and reads its reply. States the bytes sent and the replies read in each of the three outcomes |
| Commands.Keyboard.SetRepeatRateAndDelay | keyboard.c:491-548 | sends 0xF3 and the byte packing the nearest rate and delay indices, and returns those table entries |
| Commands.Keyboard.SetScanCodeSet | keyboard.c:554-572 | a set outside 1..3 does nothing; otherwise sends 0xF0, reads a reply, and sends the set number only after an ACK |
| Commands.Keyboard.Enable | keyboard.c:578-582 | sends 0xF4 alone |
| Commands.Keyboard.Disable | keyboard.c:592-596 | sends 0xF5 alone |
| Commands.Keyboard.Default | keyboard.c:606-610 | sends 0xF6 alone |
| Commands.Keyboard.Reset | keyboard.c:616-624 | sends 0xFF and reads one reply, discarded |
| Commands.Keyboard.Resend | keyboard.c:631-639 | sends 0xFE and returns the decoded next reply |
| Commands.Keyboard.Echo | keyboard.c:645-654 | sends 0xEE and returns the decoded next reply |

## Left out

- The Lua binding layer is not modelled: argument fetching, `keyboard_receive`, `keyboard_send`, `keyboard_map` and `luaopen_keyboard`. Command arguments are plain method parameters.
- GPIO and timing are not modelled: `convertPin`, `setPinVal`, `setPinDir`, `getPinVal`, the platform calls and the pin setup in `keyboard_init`. A received frame is its eleven sampled levels. A send is the list of pulldown writes plus the one 120-microsecond delay.
- The busy-wait loops on clock edges are not modelled. Each bit period is one sample, or one write. So a keyboard that stops clocking, which hangs the driver, cannot be expressed. For the same reason the reply script is unending.
- Commands.Keyboard.Write: records only the byte sent, not the pin trace. That trace is `Link.WriteFrame`'s result, which the method computes and discards. Keeping a pin log in the object made the command methods' proofs too costly.
- The `printf` debug output and the commented-out `keyboard_read` are not modelled: they have no protocol effect.
- Bytes are unsigned 0..255. On a target where `char` is signed, `ret != ACK` compares −6 with 0xFA and always fails. This model assumes unsigned `char`.
- Typematic.NearestIndex: rate and delay are unbounded integers. The source's `unsigned int` wrap-around in `rate - rates[i]` and `abs(INT_MIN)` are not modelled. These only matter for arguments far outside the tables' range.
- Commands.LedLayout: for arguments other than 0 and 1 the byte is only the low eight bits of the shifted-or value. The contract states the bit layout for lamp states 0 and 1 only. Left shifts of negative C integers are undefined, so nothing is promised for them.
- The bit-11 acknowledgement on a send is sampled by the keyboard's clock but never read. The model writes nothing in that period. It does not represent the ignored bit.
- keyboard_disablekeyevents is split into methods that run in sequence: `WriteSelector` writes the selector; `SendKeyList` reads the first reply and sends the codes and ECHO; within it, `SendKeyCodes` runs the key-code loop. `DisableKeyEvents` calls the first two in order. The split keeps each proof small and changes no write or read.
