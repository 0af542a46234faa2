# rust-lsb: least-significant-bit steganography encoder, modelled in Dafny

The program hides a message file inside the pixel bytes of a PNG image. It
turns the message bytes into a vector of booleans, eight per byte, most
significant bit first (`bin_u8`, `bin_vec_u8`). If the decoded pixel buffer
has more bytes than the message has bits, it forces the parity of pixel byte
`i` to message bit `i`. A set bit on an even byte adds one. A clear bit on an
odd byte subtracts one. Every other byte is left alone. Otherwise it prints
"Hidden message too large for target image!" and writes nothing.

The model has two modules:

- `Binary` (`binary.dfy`): Rust's `u8` as a newtype over 0..255, the
  specification functions `MsbFirst` (the eight bits of a byte, MSB first),
  `Value` (the number a bit vector denotes) and `Flatten` (a byte sequence's
  bits in order), and the methods `BinU8` and `BinVecU8`. The methods follow
  the source's loops: push the low bit and halve eight times, then reverse;
  and a nested loop that pushes every bit of every byte.
- `Steganography` (`embed.dfy`): `WithParity` (one byte after one bit is
  written), `Embedded` (the whole buffer after the bits are written) and `Lsbs`
  (the low bit of every byte, used only to state the read-back property). The
  method `Embed` is the capacity check and the embedding loop of `main`,
  pulled out into a method over an `array<u8>` that updates the buffer in
  place. `Hide` is `main` without its I/O: `bin_vec_u8` followed by `Embed`.

Pixel bytes are `u8`, so `data[i] + 1` and `data[i] - 1` in `Embed` carry
verified range checks. These checks show that the loop never overflows or
underflows. A set bit only increments an even byte, so the byte is at most
254. A clear bit only decrements an odd byte, so the byte is at least 1.

The capacity check is strict, as in the code (`buffer_size > bits`). A
message whose bit count equals the buffer length is refused, although a
buffer of that size could hold it. The model follows the code.

## Model

| member | source | states |
|---|---|---|
| Binary.BinU8 | src/main.rs:14-22 | the result is exactly the eight bits of `x`, most significant first: element k is bit 7-k, as the loop of `x % 2` and `x /= 2` followed by the reversal computes it |
| Binary.HalveIsDivision | src/main.rs:16-19 | the low bit seen after halving `x` k times is bit k in the usual sense: `x` halved k times equals `x / 2^k` |
| Binary.MsbFirstValue | src/main.rs:10-21 | `bin_u8` loses no information: its eight bits, read most significant first, denote `x` again |
| Binary.ValueOfMsbBits | src/main.rs:16-20 | for any n, the n bits collected MSB first denote `x` less the part that is still left after n halvings, times 2^n |
| Binary.MsbFirstInjective | src/main.rs:14-22 | two bytes with the same `bin_u8` output are equal |
| Binary.MsbFirstFive | src/main.rs:12-13 | the documented example: 5 gives `[f,f,f,f,f,t,f,t]` |
| Binary.Flatten | src/main.rs:29-37 | the bit vector of a byte sequence has exactly 8 bits per input byte |
| Binary.BinVecU8 | src/main.rs:29-37 | the nested loop's output is the bits of each byte, in input order (`Flatten`) |
| Binary.FlattenAt | src/main.rs:31-35 | positions 8j..8j+7 of the output hold the bits of byte j, in order |
| Binary.FlattenInjective | src/main.rs:29-37 | `bin_vec_u8` loses no information: equal outputs come only from equal inputs |
| Binary.FlattenFiveNine | src/main.rs:27-28 | the documented example: `[5, 9]` gives `0000 0101 0000 1001` |
| Steganography.WithParity | src/main.rs:67-71 | a written byte's parity equals the bit; it changes only when its parity did not match; it goes up by one only from an even byte and down by one only from an odd byte |
| Steganography.Embedded | src/main.rs:65-73 | the buffer keeps its length; byte i below the bit count is odd exactly when bit i is set, and unchanged exactly when its parity already matched; bytes at or past the bit count are untouched |
| Steganography.Embed | src/main.rs:59-73 | embedding happens exactly when the buffer is strictly longer than the bit vector; then the buffer becomes `Embedded` of its old contents, otherwise it is left exactly as it was |
| Steganography.Hide | src/main.rs:49-98 | the message is written exactly when the buffer has more bytes than 8 times the message length, and the buffer then holds `Embedded` of the message's bits; on the "too large" branch the buffer is unchanged |
| Steganography.EmbeddedReadBack | src/main.rs:65-72 | reading back the low bits of the leading bytes gives the bit vector that was written |
| Steganography.EmbeddedDistortion | src/main.rs:66-73 | every byte moves by at most one, and only its lowest bit changes (its value halved is the same) |
| Steganography.EmbeddedIdempotent | src/main.rs:67-71 | writing the same bits into the already written buffer changes nothing |
| Steganography.EmbeddedFixedPoint | src/main.rs:67-71 | the buffer is unchanged by the write exactly when its leading low bits already spell the bit vector |
| Steganography.HideInjective | src/main.rs:49-73 | two messages of the same length written into the same buffer give equal buffers only if the messages are equal |
| Steganography.EmbeddedFiveNine | src/main.rs:65-73 | a worked example: `[5, 9]` written into 32 bytes of value 4 gives 5 at the positions of the set bits and 4 elsewhere |

## Left out

- Command-line arguments (`args()`): the message and the pixel buffer are parameters of `Hide`.
- Reading the message file, opening and creating files, and `BufWriter`: I/O.
- PNG decoding and encoding through the `png` crate (`Decoder`, `read_info`, `next_frame`, `Encoder`, `set_color`, `set_depth`, `write_header`, `write_image_data`): a foreign library. The decoded pixel buffer is an input array, and `info.buffer_size()` is its length. Because of this, the zero-filled buffer that `main` allocates before decoding is not modelled.
- The `println!` on the "too large" branch and the `unwrap()` panics: output and error plumbing. The branch itself is modelled by `Embed` and `Hide` returning false and leaving the buffer unchanged.
- `output.reverse()` in `bin_u8`: modelled as the function `Reversed` on a sequence, not as an in-place reversal of a vector.
- There is no length header, no read/extract pass and no reassembly of bytes from bits in this program, so none is modelled. `Lsbs` only states what the written buffer holds.
- HideInjective: requires the two messages to have the same length. Without a length header the buffer does not say where the message ends, so a shorter message can produce the same buffer as a longer one.
