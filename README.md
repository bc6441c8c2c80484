# Steganography core in Dafny

This project models the codec core of a steganography tool. The tool hides a
short text or a whole file in the low-order bits of a carrier, then recovers
it. There are two kinds of carrier:

- **Images.** Each payload unit (one byte or character) is packed into the low
  2 bits of red and the low 3 bits of green and blue of one pixel
  (`EncodePixel`/`DecodePixel`).
- **PCM WAV files.** Each unit is spread least-significant bit first over the
  lowest bit of eight samples.

Units are written at addresses that come either from a pseudo-random generator
or from the linear sequence 0, 1, 2, ....

- For the random addresses, the image variants use a full-period linear
  congruential generator, which is seeded through a reservoir pick among the
  primes of a segmented sieve. The audio variants use rejection sampling or
  draw-without-replacement.
- A text is framed as its characters followed by 0.
- A file is framed as its length in decimal digits, `#`, its name, 0, then its
  bytes.
- Text is encrypted (AES) before framing. File bytes pass through a keystream
  XOR, the pad cipher, first.

Modules, one per source file:

- `Machine`: .NET integer semantics: `Int32`/`UInt32` wrap-around, truncating `/` and `%`.
- `NumberTheory`: divisibility, primes, Euclid's lemma, geometric sums: the Hull–Dobell theorem.
- `Pixels` (Steganography.cs): pure: pixel codec, index to point.
- `ImageSteganography` (Steganography.cs): imperative: `Bitmap` class over a 2-D array of colours, the embedders and decoders.
- `WavAudio` (WavAudio.cs): imperative: `WavAudio` class; the constructor fills `samples` and `Save` writes `data` in place.
- `AudioSteganography` (AudioSteganography.cs): mixed: write and read loops over the samples array, pure frame/tape specification.
- `Frames` (Steganography.cs, AudioSteganography.cs): pure: the text and file frames and their decoders, shared by both carriers.
- `Lcg` (LCG.cs): imperative: `Lcg` class with the orbit `X`.
- `Sieve` (Sieve32.cs): imperative: `Sieve32` class over one flat bit array sliced into vectors.
- `SeedRng` (SeedRNG.cs): imperative: `SeedRng` and `SeedUrng` classes.
- `RandomSource`: `System.Random` as a class drawing from a sample sequence.
- `Extensions` (Extensions.cs): imperative: `RandomOrDefault`.
- `FileCipher` (FileCipher.cs): imperative: the static pad state as a class.
- `HiddenFile` (HiddenFile.cs): imperative: `HiddenFile` class.

Decoding reads units from a carrier into a `Frames.Tape`: one cell per
address, each holding a byte or the exception its read raised, plus how the
address stream ends. A stream either throws (an index past the LCG's orbit, an
empty list) or never returns (rejection sampling once every value is taken).
Every method returns an `Outcome` that has three cases:

- a value;
- an exception that the program raises or catches;
- `Diverges`, for a loop that never returns.

The main results:

- **Round trips.**
  - Along any stream of distinct in-range addresses, both carriers' decoders
    read back exactly the text, or the file name and bytes, that the embedders
    wrote.
    - Images: `ImageSteganography.ImageTextRoundTrip` and `ImageFileRoundTrip`.
    - Audio: `AudioSteganography.AudioTextRoundTrip` and `AudioFileRoundTrip`.
  - The same holds end to end through the in-place methods, with `Save`
    reopened: `HideAndRecoverText` and `HideAndRecoverFile` in both modules.
  - The WAV container reads back exactly the samples it saved
    (`WavAudio.SaveThenRead`, `AudioSteganography.SavedWavReopens`). Saving
    unchanged samples leaves every byte as it was (`WavAudio.SaveUnchanged`).
- **The LCG's orbit is a permutation of [0, m).**
  - The multiplier and increment the constructor chooses satisfy the
    Hull–Dobell conditions of Knuth, TAOCP Vol. 2, section 3.2.1.2, Theorem A.
  - The orbit is therefore a permutation of [0, m) whenever `a·(m−1)+c < 2^32`
    (`Lcg.ConstructedOrbitPermutation`).
  - The 32-bit wrap is not harmless without that bound (`Lcg.WrappedOrbitRepeats`).
- **The sieve.** `Sieve32.Primes` returns exactly the primes up to its limit,
  in ascending order, for every limit from 9 on. It reports the failures the
  32-bit index arithmetic causes below 9 (`Sieve.Primes`).
- **Behaviour the code has, reproduced rather than fixed:**
  - Every pad byte is 0, so the pad cipher is the identity
    (`FileCipher.SpinLowByte`, `FileCipher.FileCipher.CipherFile`).
  - `LCG.Next` throws on call m+1 (`Lcg.Lcg.Next`).
  - The linear image text embedder overwrites its last character and the
    linear decoder waits for 255 (`ImageSteganography.ImageLinearTextLost`).
  - The audio text capacity check admits one character too many
    (`AudioSteganography.TextCapacityOffByOne`).
  - `SeedURNG.Next` never reports exhaustion (`SeedRng.RejectExhausted`).
  - The image embedders build their SeedRNG before the capacity check, so
    an image of fewer than 9 pixels, or of more than the list limit, raises
    the generator's exception whatever the payload
    (`ImageSteganography.InsertEncryptedTextToImage`,
    `ImageSteganography.InsertFileToImage`).

Where a comment or a design note and the code disagree, the model follows the
code. The comment at FileCipher.cs:21 says the pad avoids XOR with 0, but
every pad byte is 0. The reservoir pick's default 1 is never returned.

## Model

| member | source | states |
|---|---|---|
| `Pixels.EncodePixel` | Steganography.cs:548-559 | alpha becomes 255; above the low 2 bits of R and the low 3 bits of G and B nothing changes; those bits become bits 7-6, 5-3 and 2-0 of the value |
| `Pixels.DecodePixel` | Steganography.cs:561-568 | bits 2-0, 5-3 and 7-6 of the result are the low 3 bits of B, the low 3 of G and the low 2 of R |
| `Pixels.DecodeEncode` | Steganography.cs:548-568 | decoding an encoded pixel yields the value written (modulo 256), whatever the pixel |
| `Pixels.EncodeOverwrites` | Steganography.cs:548-559 | encoding twice at one pixel keeps only the second value |
| `Pixels.EncodeDecoded` | Steganography.cs:548-568 | encoding the value a pixel already decodes to changes only its alpha |
| `Pixels.EncodeExample` | Steganography.cs:548-568 | 0xD3 into (0xAC, 0x37, 0x0F) gives (0xAF, 0x32, 0x0B), which decodes to 0xD3 |
| `Pixels.LinearIndexToPoint` | Steganography.cs:8-15 | a non-negative index maps to (index mod width, index div width) |
| `Pixels.PointOfIndex` | Steganography.cs:8-15 | an index below width·height lies in the grid and y·width + x == index |
| `Pixels.PointPastGrid` | Steganography.cs:8-15 | an index from width·height on falls outside the grid |
| `Pixels.PointInjective` | Steganography.cs:8-15 | two in-grid indices naming the same point are equal |
| `Pixels.NegativeIndex` | Steganography.cs:10-14 | a negative index names the same point as its negation |
| `Pixels.MinValueIndex` | Steganography.cs:10-14 | int.MinValue stays negative under `*= -1` and falls outside the grid |
| `ImageSteganography.UnitAt` | Steganography.cs:110-112 | the read at an address is a unit exactly when its point is inside the grid |
| `ImageSteganography.ImageTape` | Steganography.cs:108-116 | the decoders' tape has one cell per address, each the unit (or GetPixel's exception) at that address, and the stream's end |
| `ImageSteganography.Reach` | Steganography.cs:43-55 | the writes stop at the first address outside the grid or at the stream's end, and every address before that is inside |
| `ImageSteganography.LinearTextAddrs` | Steganography.cs:75-88 | the linear text addresses are 0..n−1, then max(n−1, 0) for the terminator |
| `ImageSteganography.Linear` | Steganography.cs:245-306 | the linear addresses are 0, 1, ..., n−1, and reading on throws |
| `ImageSteganography.Bitmap.constructor` | Steganography.cs:19 | `new Bitmap(image)` is a fresh bitmap with the same size and pixels |
| `ImageSteganography.Bitmap.WriteUnits` | Steganography.cs:43-55 | the write loops end as `Written` says, and the new pixels are the old picture with the frame painted along the stream |
| `ImageSteganography.BuildGenerator` | Steganography.cs:33 | `new SeedRNG(key, maxLinear)` succeeds exactly when 9 ≤ maxLinear ≤ the list limit, as `SeedRng.CreateSeedRng` decides |
| `ImageSteganography.InsertEncryptedTextToImage` | Steganography.cs:17-62 | a fresh copy; the generator is built first and its exception (fewer than 9 pixels or more than the list limit) ends the call; otherwise the encrypted text and 0 are written along the stream exactly when its length is below width·height, else the copy is the unmodified input |
| `ImageSteganography.InsertEncryptedTextToImageLinear` | Steganography.cs:64-95 | the same along the linear text addresses, where the 0 lands on the last character |
| `ImageSteganography.LinearInside` | Steganography.cs:73-77 | addresses below width·height all lie inside the grid |
| `ImageSteganography.GetDecryptedTextFromImage` | Steganography.cs:97-129 | the units up to the first 0 along the stream, decrypted with the image's password, or the empty string when decryption fails; a read failure propagates |
| `ImageSteganography.GetDecryptedTextFromImageLinear` | Steganography.cs:131-162 | the same along 0, 1, 2, ..., stopping at 255 |
| `ImageSteganography.InsertFileToImage` | Steganography.cs:185-243 | the generator is built first; its exception ends the call with the copy and the cipher untouched; otherwise as `EmbedFile` |
| `ImageSteganography.EmbedFile` | Steganography.cs:192-243 | the file is ciphered with the image's key first; its frame is written exactly when file.Length < width·height − extraBytes, else the copy is unmodified; a pad that never completes diverges |
| `ImageSteganography.InsertFileToImageLinear` | Steganography.cs:245-306 | the same along 0, 1, 2, ... |
| `ImageSteganography.GetFileFromImage` | Steganography.cs:368-426 | the decoded file frame is deciphered with the same key; every decode failure gives null |
| `ImageSteganography.GetFileFromImageLinear` | Steganography.cs:428-486 | the same along 0, 1, 2, ... |
| `ImageSteganography.LinearSpread` | Steganography.cs:245-306 | the linear addresses are distinct pixels of the grid |
| `ImageSteganography.SpreadWritten` | Steganography.cs:201-236 | along distinct in-grid addresses every write lands |
| `ImageSteganography.PaintedAt` | Steganography.cs:43-55 | a unit written at an address reads back (modulo 256) when no later write hits the same pixel |
| `ImageSteganography.EmbeddedHolds` | Steganography.cs:201-236 | along a spread stream every unit of the frame is written and the decoders' tape holds the frame |
| `ImageSteganography.ImageTextRoundTrip` | Steganography.cs:41-116 | the text decoder reads back the encrypted text the embedder wrote |
| `ImageSteganography.ImageFileRoundTrip` | Steganography.cs:201-413 | the file decoder reads back the name and bytes the embedder wrote |
| `ImageSteganography.ImageLinearTextLost` | Steganography.cs:83-88 | the linear text pair does not round-trip: the 0 replaces the last character and the decoder stops only at 255 |
| `ImageSteganography.FileCapacityExample` | Steganography.cs:192-196 | with 100 pixels and "a.txt", 80 bytes pass the check and 95 do not |
| `ImageSteganography.HideAndRecoverText` | Steganography.cs:17-129 | embedding a text and decoding it along the same spread stream gives the text back, when decrypt inverts encrypt and the generator can be built; otherwise the embedder's exception |
| `ImageSteganography.HideAndRecoverFile` | Steganography.cs:185-426 | embedding a file and decoding it along the same spread stream gives its name and bytes back when the generator can be built; otherwise the embedder's exception |
| `ImageSteganography.HideAndRecoverFileLinear` | Steganography.cs:245-486 | the same for the linear file pair |
| `Frames.Stop` | Steganography.cs:108-116 | a read past the stream's end throws or diverges as the stream does |
| `Frames.Codes` | Steganography.cs:47-48 | the units of a string are its character codes |
| `Frames.Chars` | Steganography.cs:114-115 | the characters the decoder accumulates are the units read |
| `Frames.Digits` | Steganography.cs:198 | `int.ToString()` is a non-empty string of decimal digits without a leading zero |
| `Frames.DigitValueOfDigits` | Steganography.cs:198 | the value of a number's digits is the number |
| `Frames.ParseInt32` | Steganography.cs:390 | a parsed value lies in int's range |
| `Frames.ParseDigits` | Steganography.cs:198-390 | `int.Parse(n.ToString()) == n` for every non-negative int |
| `Frames.ParseNeedsDigit` | Steganography.cs:390 | a string that starts with anything but white space, a sign or a digit does not parse |
| `Frames.ReadUntil` | Steganography.cs:395-403 | a successful read consumes units from pos up to and including the stop unit, within the tape, and keeps all of them but the stop unit |
| `Frames.ReadBytes` | Steganography.cs:407-413 | a successful read yields exactly count units, all within the tape |
| `Frames.DecryptOrEmpty` | Steganography.cs:117-128 | a decrypted text, or the empty string when decryption throws; a read failure propagates |
| `Frames.TextFrame` | Steganography.cs:43-55 | the text frame is the text and a final 0 |
| `Frames.FileFrame` | Steganography.cs:192-236 | the file frame is the bytes plus extraBytes units |
| `Frames.ReadUntilPlain` | Steganography.cs:395-403 | reading a plain string and its 0 gives the string and the position after the 0 |
| `Frames.ReadLengthDigits` | Steganography.cs:381-389 | the length loop over digits and '#' reads exactly the digits |
| `Frames.ReadBytesHeld` | Steganography.cs:407-413 | the bytes loop reads back the bytes held |
| `Frames.TextRoundTrip` | Steganography.cs:43-116 | a tape holding a plain text's frame decodes to the text |
| `Frames.FileRoundTrip` | Steganography.cs:201-413 | a tape holding a file frame decodes to its name and bytes |
| `Frames.LinearTextLost` | Steganography.cs:83-88 | decoding at 255 never yields the embedded non-empty text |
| `Frames.ReadUntilLoop` | Steganography.cs:108-116 | the do-while returns what `ReadUntil` specifies |
| `Frames.ReadLengthLoop` | Steganography.cs:381-389 | the length do-while returns what `ReadLength` specifies |
| `Frames.FillBytes` | Steganography.cs:406-413 | the bytes loop fills the array with what `ReadBytes` specifies, or fails as it does |
| `Frames.DecodeFileLoop` | Steganography.cs:381-413 | the file-decoding body returns a fresh array with what `DecodeFile` specifies |
| `WavAudio.LittleEndian` | WavAudio.cs:19-20 | a width-byte little-endian read is below 256^width |
| `WavAudio.BytesAreShifts` | WavAudio.cs:60-72 | byte k written is `(v >> 8k) & 0xFF` |
| `WavAudio.BytesOfRead` | WavAudio.cs:28-72 | writing back a value that was read restores the same bytes |
| `WavAudio.ReadOfBytes` | WavAudio.cs:28-72 | reading the bytes written for a value that fits gives the value |
| `WavAudio.LowThreeBytes` | WavAudio.cs:31 | the 24-bit sample is the low three bytes of the four-byte read |
| `WavAudio.ReadSample` | WavAudio.cs:25-36 | sample n is the little-endian integer of width bits/8 at 0x2E + n·width |
| `WavAudio.ReadableSample` | WavAudio.cs:25-36 | every readable sample, and the end of the last one, lies within the data |
| `WavAudio.Samples` | WavAudio.cs:24-36 | the constructor reads TotalSamples samples |
| `WavAudio.StoreWritten` | WavAudio.cs:56-72 | a store puts the bytes where it was asked to |
| `WavAudio.SavedOutside` | WavAudio.cs:46-78 | Save changes no byte outside the samples' bytes |
| `WavAudio.SavedSample` | WavAudio.cs:51-76 | after Save, sample i's bytes are the little-endian form of its value |
| `WavAudio.SaveUnchanged` | WavAudio.cs:25-76 | saving the samples just read leaves `data` byte-identical |
| `WavAudio.SaveThenRead` | WavAudio.cs:25-76 | reading back after Save gives the samples written, when each fits its width |
| `WavAudio.SamplesPrefix` | WavAudio.cs:25-36 | reading fewer samples gives a prefix |
| `WavAudio.SavedReadsBack` | WavAudio.cs:25-76 | each sample read back after Save is the one written |
| `WavAudio.FourBytesHoldU32` | WavAudio.cs:68-72 | every 32-bit sample fits four bytes |
| `WavAudio.WavAudio.constructor` | WavAudio.cs:15-44 | header fields at 0x16 and 0x22; for widths 8/16/24/32, TotalSamples = (length / Channels) / (bits/8), the samples read from the very array passed in; otherwise no samples and an empty data array; BytesAvailable = TotalSamples div 8 |
| `WavAudio.WavAudio.Save` | WavAudio.cs:46-78 | the new data is the old with every sample written back at its offset; unsupported widths write nothing |
| `WavAudio.WavAudio.WriteSample` | WavAudio.cs:53-75 | one sample's switch stores exactly its w little-endian bytes at the offset |
| `WavAudio.Open` | WavAudio.cs:15-44 | the constructor fails exactly as `ParseError` says (short header, Channels 0, 24-bit read past the end), else it yields a valid object |
| `AudioSteganography.Bit` | AudioSteganography.cs:24 | `(value >> x) & 1` is a single bit |
| `AudioSteganography.FrameBits` | AudioSteganography.cs:17-36 | a frame is written as 8 bits per unit, bit j%8 of unit j/8 |
| `AudioSteganography.SetLow` | AudioSteganography.cs:24 | `(s & 0xFFFFFFFE) \| bit` keeps bits 1..31 and sets bit 0 |
| `AudioSteganography.Reach` | AudioSteganography.cs:17-36 | the writes stop at the first index past the samples or at the stream's end |
| `AudioSteganography.LinearSamples` | AudioSteganography.cs:57-82 | the linear indices are 0..T−1, and reading on throws |
| `AudioSteganography.Assemble` | AudioSteganography.cs:106-111 | `value \|= low << x` gives a value below 2^n |
| `AudioSteganography.Lows` | AudioSteganography.cs:106-111 | the bits read are the samples' lowest bits |
| `AudioSteganography.GroupCell` | AudioSteganography.cs:103-114 | a group of eight indices reads as a unit exactly when all are in range |
| `AudioSteganography.AudioTape` | AudioSteganography.cs:103-114 | the decoders' tape is one unit per full group of eight indices, then the exception of a later out-of-range index |
| `AudioSteganography.WriteUnits` | AudioSteganography.cs:17-36 | the write loops end as `Written` says and leave the samples as `Embedded` specifies |
| `AudioSteganography.ReadUnit` | AudioSteganography.cs:106-111 | the inner read loop returns `GroupCell` |
| `AudioSteganography.ReadTape` | AudioSteganography.cs:103-114 | the read loop returns `AudioTape` |
| `AudioSteganography.WriteAndSave` | AudioSteganography.cs:17-40 | when every write lands, Save runs and the returned array is `data` with the embedded samples; otherwise the bytes stay as they were |
| `AudioSteganography.EncryptText` | AudioSteganography.cs:5-47 | a parse failure throws; a text passing `length <= T/8` is written with its 0 along the stream and saved into the input array itself; otherwise an empty array and untouched input |
| `AudioSteganography.EncryptTextLinear` | AudioSteganography.cs:49-93 | along 0, 1, 2, ...: frames of up to T samples give the saved array, and a text that passes the check but needs more samples throws |
| `AudioSteganography.DecryptText` | AudioSteganography.cs:95-126 | the units up to the first 0 read along the stream, decrypted with the sample width as password, or empty when decryption throws |
| `AudioSteganography.DecryptTextLinear` | AudioSteganography.cs:128-160 | the same along 0, 1, 2, ... |
| `AudioSteganography.EncryptFile` | AudioSteganography.cs:162-244 | ciphered with key (int)TotalSamples first; a file passing `length <= T/8 − extraBytes` has its frame written and saved into the input array, else an empty array; a pad that never completes diverges |
| `AudioSteganography.EncryptFileLinear` | AudioSteganography.cs:246-331 | along 0, 1, 2, ... every file that passes the check is written and saved |
| `AudioSteganography.DecryptFile` | AudioSteganography.cs:418-480 | the file frame read along the stream, deciphered with key (int)TotalSamples; every failure gives null |
| `AudioSteganography.DecryptFileLinear` | AudioSteganography.cs:482-546 | the same along 0, 1, 2, ... |
| `AudioSteganography.ReachAll` | AudioSteganography.cs:17-36 | with every index in range, all writes land |
| `AudioSteganography.SpreadWritten` | AudioSteganography.cs:17-36 | along distinct in-range indices every write lands |
| `AudioSteganography.LinearSpread` | AudioSteganography.cs:57-82 | the linear indices are distinct sample indices |
| `AudioSteganography.LinearReach` | AudioSteganography.cs:57-82 | the linear writes stop at n or at the last sample |
| `AudioSteganography.LinearWritten` | AudioSteganography.cs:57-82 | along 0, 1, 2, ... n writes land exactly when n <= T, else Samples[T] throws |
| `AudioSteganography.TextCapacityOffByOne` | AudioSteganography.cs:11-36 | a text of exactly T/8 characters passes the check, but its frame needs more than T samples, and the linear writes throw |
| `AudioSteganography.TextCapacity` | AudioSteganography.cs:11 | a frame fits exactly when length < T/8, one short of what the check admits |
| `AudioSteganography.FileCapacityExact` | AudioSteganography.cs:165-169 | a file passes its check exactly when its frame fits the samples |
| `AudioSteganography.LowBitsNext` | AudioSteganography.cs:106-111 | bit n on top of the low n bits gives the low n+1 bits |
| `AudioSteganography.AssembleBits` | AudioSteganography.cs:17-36 | reassembling the bits written restores the low bits of the value |
| `AudioSteganography.PokedAt` | AudioSteganography.cs:22-25 | a bit written at an index reads back when no later write hits it |
| `AudioSteganography.PokedFits` | AudioSteganography.cs:24 | replacing lowest bits keeps samples below an even bound |
| `AudioSteganography.EmbeddedFits` | AudioSteganography.cs:17-36 | the embedded samples still fit their width |
| `AudioSteganography.UnitHeld` | AudioSteganography.cs:17-111 | along a spread stream, unit k's eight samples read back as the unit's low byte |
| `AudioSteganography.EmbeddedHolds` | AudioSteganography.cs:17-111 | along a spread stream every unit is written and the tape holds the frame |
| `AudioSteganography.AudioTextRoundTrip` | AudioSteganography.cs:17-114 | the text decoder reads back the encrypted text written |
| `AudioSteganography.AudioFileRoundTrip` | AudioSteganography.cs:178-469 | the file decoder reads back the name and bytes written |
| `AudioSteganography.SavedHeader` | WavAudio.cs:46-78 | Save leaves the 0x2E header bytes alone |
| `AudioSteganography.SavedWavReopens` | WavAudio.cs:15-78 | reopening the saved bytes gives the same width, the same count and the very samples saved |
| `AudioSteganography.SamplesFit` | WavAudio.cs:25-36 | parsed samples fit their width |
| `AudioSteganography.HideAndRecoverText` | AudioSteganography.cs:5-126 | embedding a text and decoding it along the same spread stream gives the text back, when decrypt inverts encrypt |
| `AudioSteganography.HideAndRecoverFile` | AudioSteganography.cs:162-480 | embedding a file and decoding it along the same spread stream gives its name and original bytes back |
| `Lcg.Step` | LCG.cs:58 | one step `(a·x + c) mod m` in 32-bit unsigned arithmetic lies below m |
| `Lcg.Iter` | LCG.cs:56-59 | every orbit value from a start below m lies below m |
| `Lcg.Orbit` | LCG.cs:55-59 | X has m entries, X[i] the i-th iterate from x0 |
| `Lcg.Lcg.constructor` | LCG.cs:23-29 | x0 is stored reduced modulo m, a and c as Initialize chooses, index 0 and the orbit materialised |
| `Lcg.Lcg.Initialize` | LCG.cs:33-60 | c from CalcC, a from the product of the factors, then the orbit |
| `Lcg.Lcg.ChooseMultiplier` | LCG.cs:37-52 | a becomes `Multiplier(m, product)` for both m mod 4 branches |
| `Lcg.Lcg.FillOrbit` | LCG.cs:54-59 | X[0] = x0 and X[i] = (a·X[i−1] + c) mod m for m entries |
| `Lcg.Lcg.CalcC` | LCG.cs:87-107 | factors are the primes that divide m; c is the reservoir pick among the others, and an empty candidate list throws |
| `Lcg.Lcg.SetIndex` | LCG.cs:62 | sets the index, nothing else |
| `Lcg.Lcg.Get` | LCG.cs:64 | Get(i) == X[i] inside [0, m), else throws |
| `Lcg.Lcg.Next` | LCG.cs:66-75 | X[index] then index+1 while index < m; call m+1 throws, with no wrap-around |
| `Lcg.Lcg.GetList` | LCG.cs:77-85 | the m orbit values in order |
| `Lcg.Create` | LCG.cs:14-31 | the constructor for every modulus: 0 fails on x0 % m, 1..8 fail in the sieve, too large fails on the list, otherwise a valid generator |
| `Lcg.CreateSigned` | LCG.cs:21-31 | the int constructors cast both arguments to uint |
| `Lcg.FilterMembers` | LCG.cs:93-102 | the factors and the candidates split the primes by whether they divide m |
| `Lcg.CandidatesNonEmpty` | LCG.cs:87-113 | for m >= 3 the candidates are exactly the primes below m that do not divide m, and there is one |
| `Lcg.IncrementCoprime` | LCG.cs:87-107 | the increment shares no prime factor with m |
| `Lcg.FactorsRadical` | LCG.cs:36-37 | the factors' product does not wrap, divides m, and is divisible by every prime factor of m |
| `Lcg.FactorsAreRadical` | LCG.cs:109-113 | the factors are the primes dividing m, with 1 appended |
| `Lcg.MultiplierFullPeriod` | LCG.cs:37-52 | a − 1 is divisible by every prime factor of m, and by 4 when 4 divides m |
| `Lcg.ConstructedMultiplier` | LCG.cs:36-52 | the multiplier Initialize computes meets the Hull–Dobell conditions |
| `Lcg.StepExact` | LCG.cs:58 | no step wraps when a·(m−1) + c < 2^32 |
| `Lcg.IterCongruent` | LCG.cs:56-59 | the n-th iterate is congruent to a^n·y + c·(1 + a + ... + a^(n−1)) modulo m |
| `Lcg.OrbitDistinct` | LCG.cs:56-59 | under Hull–Dobell with no wrap, the first m orbit values are pairwise distinct |
| `Lcg.FullPeriodOrbit` | LCG.cs:55-59 | under Hull–Dobell with no wrap, X is a permutation of [0, m) |
| `Lcg.ConstructedOrbitPermutation` | LCG.cs:33-60 | with the chosen a and c, X is a permutation of [0, m) whenever a·(m−1) + c < 2^32 |
| `Lcg.WrappedOrbitRepeats` | LCG.cs:58 | with m = 65539, a = 65540, c = 3 the conditions hold but the wrapped orbit repeats after 3 steps |
| `NumberTheory.FullPeriodSum` | LCG.cs:56-59 | under the multiplier condition m divides 1 + a + ... + a^(m−1) |
| `NumberTheory.ShortestPeriod` | LCG.cs:56-59 | under the multiplier condition no orbit closes before m steps |
| `NumberTheory.PrimeNotDividing` | LCG.cs:87-107 | every n >= 3 has a prime below it that does not divide it |
| `NumberTheory.CompositeFactor` | Sieve32.cs:77-87 | a composite has a prime factor whose square does not exceed it |
| `Sieve.ToFlatIndex` | Sieve32.cs:221 | the index fits an int, and is (n−3)/2 from 3 on |
| `Sieve.ToIndex` | Sieve32.cs:261 | the index fits an int, and is (n − start)/2 from the starting number on |
| `Sieve.ToNumber` | Sieve32.cs:263 | ToNumber(i) = StartingNumber + 2i when it fits a uint |
| `Sieve.ISqrtBounds` | Sieve32.cs:178 | the root r satisfies r² <= n < (r+1)² |
| `Sieve.OddLimit` | Sieve32.cs:172-175 | an even limit above 2 is lowered by one to an odd number |
| `Sieve.PaddedLength` | Sieve32.cs:223-229 | the least multiple of 32 at or above the length |
| `Sieve.TypicalBounds` | Sieve32.cs:202-217 | the typical length is positive and bounded, and covers every odd number below 10000 |
| `Sieve.SquareRootIndexBounds` | Sieve32.cs:178 | from 9 on the root's index lies within the odd numbers up to the limit |
| `Sieve.SmallLimitRootIndex` | Sieve32.cs:178 | below 9 the unsigned subtraction wraps and the root's index is int.MaxValue |
| `Sieve.SmallLimitFirstLength` | Sieve32.cs:219 | below 9 the first vector's padded length is int.MinValue |
| `Sieve.NewVectorFits` | Sieve32.cs:237-250 | a new vector is clamped so that it ends at the limit at the latest |
| `Sieve.SmallLimitFails` | Sieve32.cs:237-250 | a length of int.MinValue gives a negative BitArray length |
| `Sieve.CreateVectors` | Sieve32.cs:181-200 | from 9 on the vectors tile 3, 5, ..., limit and the first holds the root's index; 2 divides by zero and 3..8 fail on a negative length |
| `Sieve.NextVector` | Sieve32.cs:192-198 | the next vector starts at the previous ending number + 2 and ends by the limit |
| `Sieve.AddVectors` | Sieve32.cs:187-199 | the loop's vectors tile the odd numbers up to the limit, or fail below 9 |
| `Sieve.PrimesBelowMembers` | Sieve32.cs:58-107 | the specification list holds exactly the primes below n |
| `Sieve.PrimesBelowAscending` | Sieve32.cs:58-107 | the specification list is strictly ascending |
| `Sieve.PrimesBelowFirst` | Sieve32.cs:62 | the first prime is 2 |
| `Sieve.OddMultipleStartFirst` | Sieve32.cs:127-143 | the start index names the first odd multiple of p from the vector's start |
| `Sieve.OuterVectorHits` | Sieve32.cs:126-152 | in a non-root vector the marking visits exactly the odd multiples of p |
| `Sieve.RootVectorHits` | Sieve32.cs:121-124 | in the root vector the marking visits exactly the odd multiples of p from p² |
| `Sieve.SurvivorsArePrimes` | Sieve32.cs:77-87 | once every odd prime up to the root has been marked, exactly the primes survive |
| `Sieve.VectorHits` | Sieve32.cs:112-153 | the bits of vector k visited are those of the numbers marking clears |
| `Sieve.Sieve32.constructor` | Sieve32.cs:249 | every bit starts set |
| `Sieve.Sieve32.MarkVector` | Sieve32.cs:114-152 | in one vector, a bit is cleared exactly when marking strikes its number |
| `Sieve.Sieve32.FirstMultiple` | Sieve32.cs:119-144 | p² in the root vector, the first odd multiple elsewhere |
| `Sieve.Sieve32.ClearEvery` | Sieve32.cs:149-152 | clears start, start + step, ... up to the stop index, nothing else |
| `Sieve.Sieve32.MarkComposites` | Sieve32.cs:109-154 | over all vectors, a bit is cleared exactly when marking with p strikes its number |
| `Sieve.Sieve32.RootStep` | Sieve32.cs:79-86 | a bit still set is prime; it is yielded and the bits survive one more prime |
| `Sieve.Sieve32.SievedArePrimes` | Sieve32.cs:77-87 | after the root loop the set bits are exactly the primes |
| `Sieve.Sieve32.CollectVector` | Sieve32.cs:102-105 | the set bits of one vector, in order, extend the primes found |
| `Sieve.Sieve32.CollectRemaining` | Sieve32.cs:92-106 | the second loop completes the list of primes up to the limit |
| `Sieve.Sieve32.EnumeratePrimes` | Sieve32.cs:58-107 | the enumeration is exactly the primes up to the limit, ascending from 2 |
| `Sieve.Primes` | Sieve32.cs:21-30 | below 2 throws; 2 divides by zero; 3..8 fail on a negative length; from 9 on, exactly the primes up to the limit |
| `Sieve.PrimesSigned` | Sieve32.cs:11-19 | the int overload rejects limits below 2, else as the uint one |
| `RandomSource.Draw` | SeedRNG.cs:24 | a draw lies in [min, max), or is min when the bounds are equal |
| `RandomSource.Random.Next` | SeedRNG.cs:24 | one sample used, the draw `Draw` specifies |
| `Extensions.ElementDraw` | Extensions.cs:13-15 | the draw for element j lies in [0, j] |
| `Extensions.RandomOrDefault` | Extensions.cs:8-25 | throws on an empty source, else the reservoir pick; one draw per element |
| `Extensions.PickIsLastZero` | Extensions.cs:12-19 | the result is the last element whose draw was 0, so the default is never returned |
| `Extensions.PickInSource` | Extensions.cs:12-24 | for a non-empty source the result is one of its elements |
| `SeedRng.Range` | SeedRNG.cs:14 | `Enumerable.Range(0, n)` is 0..n−1 in order |
| `SeedRng.RemoveAtMultiset` | SeedRNG.cs:26 | RemoveAt removes exactly one element and keeps the rest |
| `SeedRng.RangeNoDuplicates` | SeedRNG.cs:14 | 0..n−1 has no duplicates |
| `SeedRng.MoveToReturned` | SeedRNG.cs:24-27 | moving an element from the list to the returned values keeps them all distinct and below the limit |
| `SeedRng.SeedRng.constructor` | SeedRNG.cs:8-16 | the LCG starts at the seed's first draw below the limit; with b the list is 0..limit−1 |
| `SeedRng.SeedRng.Next` | SeedRNG.cs:18 | the LCG's next orbit value, or its exception after m calls |
| `SeedRng.SeedRng.NextN` | SeedRNG.cs:20-29 | removes and returns the element at a drawn position; the results stay distinct and below the limit; an empty list throws |
| `SeedRng.StartLcg` | SeedRNG.cs:10 | the LCG's modulus is the limit and its start the first draw |
| `SeedRng.CreateSeedRng` | SeedRNG.cs:8-16 | the constructor for every limit: negative rejected by Random.Next, 0..8 fail in the LCG, too large fail on the list |
| `SeedRng.RejectFresh` | SeedRNG.cs:56-62 | a value the rejection loop returns is below the limit and was not obtained before |
| `SeedRng.RejectExhausted` | SeedRNG.cs:56-60 | once every value is obtained the loop never returns |
| `SeedRng.SeedUrng.constructor` | SeedRNG.cs:38-50 | with b the list is 0..limit−1; nothing obtained yet |
| `SeedRng.SeedUrng.Next` | SeedRNG.cs:52-64 | the value the rejection loop yields is appended to the obtained values and returned |
| `SeedRng.SeedUrng.NextN` | SeedRNG.cs:66-75 | as SeedRNG.NextN over a list of uint |
| `SeedRng.CreateSeedUrng` | SeedRNG.cs:38-50 | fails only when the list cannot hold limit elements |
| `FileCipher.XorBitsTwice` | FileCipher.cs:36 | XOR twice with the same byte restores the original |
| `FileCipher.SpinLowByte` | FileCipher.cs:18-22 | the do-while exits only on a value whose low byte is 0: every pad byte is 0 |
| `FileCipher.XorInvolution` | FileCipher.cs:36 | XOR with 0 keeps a byte; XOR twice with the same byte gives it back |
| `FileCipher.FillStuck` | FileCipher.cs:16-23 | once a pad byte cannot be drawn, no larger count can be |
| `FileCipher.FileCipher.constructor` | FileCipher.cs:5-8 | the static state starts empty and zero |
| `FileCipher.FileCipher.DrawPadValue` | FileCipher.cs:18-21 | one do-while run: the next value with low byte 0 |
| `FileCipher.FileCipher.Resize` | FileCipher.cs:14 | `Array.Resize` keeps the old bytes and pads with zeros |
| `FileCipher.FileCipher.PreparePad` | FileCipher.cs:10-26 | nothing when the pad is long enough, else the pad grows to l with its new entries drawn and previous = l |
| `FileCipher.FileCipher.CipherFile` | FileCipher.cs:28-39 | a fresh array of the same length equal to the input, which is not modified; the key is only stored |
| `HiddenFile.HiddenFile.constructor` | HiddenFile.cs:9-14 | stores the file array itself and the name; Size = file.Length |
| `HiddenFile.HiddenFile.CipherFile` | HiddenFile.cs:16-20 | File becomes the ciphered copy, with the same contents; Filename and Size unchanged |
| `HiddenFile.RecoverFile` | AudioSteganography.cs:458-479 | decoding failures give null; otherwise a fresh HiddenFile with the decoded name and bytes, deciphered with the key |

## Left out

- AES (AESEncrypt.cs) is not part of this model. `EncryptString` and
  `DecryptString` are function parameters, and a failed decryption is `None`.
  The round-trip methods require that decrypt inverts encrypt and that the
  cipher text holds no 0 character; the model does not prove either.
- Address generators in the embedders and decoders: the SeedRNG/SeedURNG
  address stream is a parameter `addresses(T)` (a `Frames.Stream`).
  `EncryptFile2`, `DecryptFile2`, `EncodeFileWithColor2` and `GetFileFromImage2`
  differ from their siblings only in the generator, so the same parameter
  covers them. The generator classes are modelled separately in `SeedRng`.
  The image embedders do build the generator (`ImageSteganography.BuildGenerator`)
  because its exception comes before their capacity check; the addresses it
  would draw remain the parameter.
- `ImageSteganography.HideAndRecoverText`: requires the address stream to be
  spread (distinct in-range addresses) rather than deriving that from SeedRNG.
  Every LCG draw is below m (`Lcg.Step`), and the orbit is a permutation when
  the step does not wrap (`Lcg.ConstructedOrbitPermutation`). Distinctness
  for moduli where the 32-bit step wraps (a·(m−1)+c ≥ 2^32, m = 1 001 000
  with a = 40041 for one) is not proved, and it can fail
  (`Lcg.WrappedOrbitRepeats`).
- `AudioSteganography.HideAndRecoverText`: likewise requires a spread stream.
  It does not prove that SeedURNG's rejection draws are spread. Only the linear
  case (`LinearSpread`) and the distinctness of each draw (`RejectFresh`) are
  proved.
- `FileCipher.FileCipher.PreparePad`: the pad do-while is run with a fuel
  bound, because its termination is not evident from the 32-bit recurrence.
  Running out of fuel is reported as a loop that never returns.
- `SeedRng.SeedUrng.Next`: the rejection loop is run with a fuel bound for the
  same reason.
- The decoders read the whole stream into a tape first, where the program
  reads lazily. A read's exception is recorded in the tape and raised when
  the decoder reaches it, so the outcomes are the same.
- The embedders' separate loops (digits, '#', name, 0, bytes) are written as
  one loop over the frame's units. They visit the same addresses in the same
  order.
- `value |= low << x` on bits that do not overlap is modelled as addition.
- BitConverter is taken to be little-endian.
- Math.Floor over an integer division and `(uint)Math.Sqrt` are modelled as
  integer division and the integer square root.
- Parallel.For in the sieve's marking is modelled as a sequential loop over
  the vectors. The vectors are disjoint slices of one bit array.
- `Environment.ProcessorCount` is a parameter.
- `GetHashCode` of an int is the int itself.
- Null arguments and the empty `catch` paths of the UI are left out.
- OutputConsole.cs logging is left out.
- `ImageSteganography.Bitmap.Valid` requires width·height to fit an int, as
  `maxLinear` is an int. Larger bitmaps are not modelled.
- Prime.cs, Form1.cs, ImgPreview.cs, Program.cs, FileSizeFormatProvider.cs and
  OutputConsole.cs are not part of this model. They hold UI, threads and
  display formatting.
- System.Random's own algorithm is not modelled. A generator is a sequence of
  samples, and each draw is one sample scaled into its range.
