# cryptopals-solutions core in Dafny

This project models five parts of the Rust crate `cryptopals-solutions` and proves properties about each.

- **CBC mode** (`src/aes_cbc.rs`). `xor_in_place`, `encrypt` and `decrypt` work on an in-place copy of the message, one 16-byte block at a time. Encryption chains each plaintext block with the previous ciphertext block (the IV for the first) before the block cipher. Decryption undoes this. A message that is not block-aligned is padded first, and the padding is never stripped.
- **Character-class histogram** (`src/cos_sim.rs`, `CharFreq::from_str`). The text is ASCII-upper-cased. Each byte goes into one of 70 slots, or the whole text is rejected with the first invalid byte. The slots are then counted.
- **Legacy English scorer** (`src/lib.rs`, `score_string`).
  - Printable ASCII text is lower-cased and counted into 95 slots.
  - The counts are turned into per-mille frequencies in `i16`.
  - Fixed letter weights are subtracted, the absolute deviations are added up into `sum`, and the score is `1 / (sum + 1)`.
- **Newline-skipping reader** (`src/io_utils.rs`, `SkipNewlinesReader`). One `read` reads at most `min(1024, len(out_buf))` bytes from the wrapped reader into its 1024-byte buffer. It then writes those bytes, minus every CR and LF, to the front of the caller's buffer.
- **The `charfreq` tool's table** (`src/bin/charfreq.rs`, lines 16-34).
  - Lower-cased characters are normalised: typographic dashes and quotes become ASCII, and CR and everything above `'z'` is skipped.
  - The kept characters are counted in a map.
  - The map is collected into a list and sorted by character.

The modules follow the crate:

| module | file |
|---|---|
| `AesCbc` | `aes_cbc.dfy` |
| `Pkcs7` | `pkcs7.dfy` (the padding contract `encrypt` relies on) |
| `CosSim` | `cos_sim.dfy` |
| `Cryptopals` | `lib.dfy` |
| `IoUtils` | `io_utils.dfy` |
| `CharFreqTool` | `charfreq.dfy` |

Three modules are shared:

- `Histogram`: occurrence counts and their sums, used by all three counters.
- `Wrappers`: `Option` and `Result`.
- `Bytes`: the `u8` type.

The state the source updates in place is modelled in place:

- the CBC working copy, the count arrays and the caller's output buffer are Dafny `array`s;
- the reader is a class with its buffer as a field, and the wrapped reader is another class;
- the `charfreq` map is a `map` that the loop reassigns, and its list is an array sorted in place.

Each method is proved against a specification function or predicate. The properties the source promises are proved about those as lemmas.

## Model

| member | source | states |
|---|---|---|
| AesCbc.XorInPlace | src/aes_cbc.rs:5-8 | Afterwards `a[lo + i] == old(a[lo + i]) ^ b[i]` for every `i < len(b)`; every other byte of `a` is unchanged. |
| AesCbc.XorTwice | src/aes_cbc.rs:7 | XOR-ing with the same bytes twice gives back the original, which is why decryption's XOR undoes encryption's. |
| AesCbc.CipherInPlace | src/aes_cbc.rs:27 | One block `a[lo..lo+16]` is replaced by the block cipher applied to it; all other bytes are unchanged. |
| AesCbc.PadIfUnaligned | src/aes_cbc.rs:20-23 | The result is block-aligned. An aligned message is kept as it is; any other message is PKCS#7-padded to 16. |
| Pkcs7.Pkcs7Pad | src/aes_cbc.rs:21-23 | Padding to block size `k` keeps the message as a prefix and adds 1 to `k` bytes, each equal to the number added. The result is a multiple of `k` (section 6.3 of RFC 5652). |
| Pkcs7.PadIsNextMultiple | src/aes_cbc.rs:21-23 | The padded length is at most any multiple of `k` above the message length, so it is the next multiple. |
| AesCbc.EncryptChunk | src/aes_cbc.rs:24-32 | Encrypting block `i` in place XORs it with the chaining block (the IV, or ciphertext block `i - 1`) and enciphers it, extending the correctly chained prefix by one block. |
| AesCbc.Encrypt | src/aes_cbc.rs:13-34 | An empty message gives an empty result. Otherwise the result is the CBC chaining of the padded message: `c[0] = E(k, p[0] ^ iv)` and `c[i] = E(k, p[i] ^ c[i-1])`. An aligned message keeps its length; any other grows to the next multiple of 16. |
| AesCbc.DecryptChunk | src/aes_cbc.rs:45-50 | Decrypting block `i` in place deciphers it and XORs it with the chaining block. That block is taken from the unmodified input (`iv` or `msg` block `i - 1`), not from the partly decrypted result. |
| AesCbc.Decrypt | src/aes_cbc.rs:37-52 | Only whole blocks are accepted. An empty message gives an empty result. Otherwise `p[i] = D(k, c[i]) ^ c[i-1]` with `c[-1] = iv`, and the output has the input's length. |
| AesCbc.ChainedUnique | src/aes_cbc.rs:24-32 | For a given cipher, key, IV and plaintext there is exactly one CBC ciphertext. |
| AesCbc.UnchainedUnique | src/aes_cbc.rs:45-50 | For a given cipher, key, IV and ciphertext there is exactly one CBC plaintext. |
| AesCbc.CbcRoundTrip | src/aes_cbc.rs:13-52 | If `D` inverts `E`, decrypting a CBC encryption gives back the plaintext. |
| AesCbc.EncryptThenDecrypt | src/aes_cbc.rs:36-52 | `decrypt(k, iv, encrypt(k, iv, m))` is `m` for a block-aligned `m`. For any other `m` it is `m` with its PKCS#7 padding, because padding is not stripped. |
| CosSim.FromStr | src/cos_sim.rs:14-29 | `Ok` exactly when every byte is tab, LF or 0x20..0x7E, with slot `j` holding the number of bytes binned there. Otherwise `Err(InvalidChar(b))` for the first offending byte `b`, taken from the original input. |
| CosSim.SlotOfAccepted | src/cos_sim.rs:16-28 | A byte gets a slot exactly when it is accepted, and every slot lies in `[0, 70)`. Lower-case letters are accepted only because upper-casing comes first: a lower-case byte has no slot of its own but gets one after upper-casing, and upper-casing never alters a rejected byte. |
| CosSim.SlotCollision | src/cos_sim.rs:23-25 | `` ` `` (0x60) and `{` (0x7B) both land in slot 66, and no other two bytes share a slot. |
| CosSim.CountsSumToLength | src/cos_sim.rs:15-29 | On success the 70 counts add up to the byte length of the input. |
| CosSim.UpperInvariant | src/cos_sim.rs:16 | `s` and its ASCII upper-casing are accepted alike, reported alike on failure, and counted alike. |
| Cryptopals.ScoreString | src/lib.rs:7-27 | The result is `None` unless every byte is printable ASCII. Otherwise it is `1 / (sum + 1)`, where `sum` adds up the absolute deviations of the per-mille letter frequencies from the weights. This holds for every text on which the `i16` arithmetic does not overflow and the division does not divide by zero. |
| Cryptopals.CountBytes | src/lib.rs:10-16 | The counting loop reports whether the text is printable. When it is, slot `j` holds the number of lower-cased bytes equal to `j + 32`. |
| Cryptopals.ToPerMille | src/lib.rs:18-20 | Each count becomes `count * 1000 / len` in place. |
| Cryptopals.SubtractWeights | src/lib.rs:22-24 | Slot `65 + i` loses the weight of the `i`-th letter; the other slots are unchanged. |
| Cryptopals.SumAbs | src/lib.rs:25 | The sum of the absolute values of the 95 slots is the deviation sum. |
| Cryptopals.ScoreDefinedExactly | src/lib.rs:8-14 | A text is scored exactly when every byte is in 32..126, so tab, LF, CR and non-ASCII text are rejected. A score lies in `[1/2005, 1]`. |
| Cryptopals.CountsSumToLength | src/lib.rs:10-16 | Before normalisation the counts of a printable text add up to its length. |
| Cryptopals.LetterSlots | src/lib.rs:15-24 | A printable byte lands in slot `b - 32` after lower-casing. The weighted slots 65..90 receive exactly the letters, in alphabet order, in either case. |
| Cryptopals.DeviationSumBounds | src/lib.rs:25-26 | The deviation sum lies in `[0, 2004]`, so the score `1/(sum+1)` is positive and at most 1. |
| Cryptopals.WeightTableSum | src/lib.rs:3 | The 26 letter weights add up to 1004. |
| Cryptopals.CaseInvariant | src/lib.rs:9-19 | Two texts with the same ASCII lower-casing get the same verdict and the same score. |
| Cryptopals.OverflowWitness | src/lib.rs:18-20 | Thirty-three `a`s are printable and of non-zero length, and their counts fit, yet `count * 1000` overflows `i16`. |
| Cryptopals.ScoreStringWide | src/lib.rs:7-27 | With the normalisation computed in a wider type, every printable non-empty text whose counts fit gets its score. |
| IoUtils.SkipNewlinesReader.constructor | src/io_utils.rs:12-17 | The reader wraps the given inner reader, with a fresh zeroed 1024-byte buffer. |
| IoUtils.ChunkSource.Read | src/io_utils.rs:27 | The inner read delivers at most `len` bytes, the next ones of the stream, into the front of the destination and leaves the rest of it unchanged. |
| IoUtils.SliceWrite | src/io_utils.rs:40 | `Write for &mut [u8]` copies `min(len(data), room)` bytes to the front of the remaining slice and touches nothing else. |
| IoUtils.SkipNewlinesReader.WriteRun | src/io_utils.rs:40-46 | Each `write` in the loop fits completely, so it never truncates. The bytes go right after those already written. |
| IoUtils.SkipNewlinesReader.Filter | src/io_utils.rs:35-49 | The labelled loop writes the chunk with every CR and LF removed, in order, to the front of `out_buf`. The count written is at most `bytes_read`, and later bytes are unchanged. |
| IoUtils.SkipNewlinesReader.Read | src/io_utils.rs:21-50 | An empty `out_buf` returns 0 and leaves the inner reader and the buffer untouched. Otherwise one read of at most `min(1024, len(out_buf))` bytes lands in the buffer, and `out_buf[..n]` is that chunk without CR/LF, so an empty chunk gives 0. The rest of `out_buf` is unchanged. The output plus the filtered remainder of the stream equals the filtered stream before the call. |
| IoUtils.ReadConsumesInOrder | src/io_utils.rs:27 | A read's bytes followed by what remains make up the whole stream. |
| IoUtils.StripAppend | src/io_utils.rs:37-48 | Removing newlines distributes over concatenation, which is what lets the loop handle one run at a time. |
| IoUtils.StripIdentity | src/io_utils.rs:58-69 | A chunk is passed on verbatim exactly when it holds no CR or LF. |
| IoUtils.StripDropsOneNewline | src/io_utils.rs:71-111 | A single middle or trailing newline is dropped and nothing else is; the count shrinks by one. |
| IoUtils.StripEmpty | src/io_utils.rs:37-49 | Nothing is written exactly when the chunk is all CR/LF, which gives the same 0 as end of input. |
| IoUtils.StripLength | src/io_utils.rs:35-49 | The number written is the chunk length less its number of CR and LF bytes. |
| IoUtils.StripIdempotent | src/io_utils.rs:37-49 | Filtered output contains nothing more to filter. |
| CharFreqTool.NormalizeCases | src/bin/charfreq.rs:18-28 | U+2013/U+2014 count as `-`, U+2018/U+2019 as `'` and U+201C/U+201D as `"`, even though they lie above `'z'`. CR and every other character above `'z'` is skipped, and everything else counts as itself. |
| CharFreqTool.CountMapCounts | src/bin/charfreq.rs:29-30 | The map built by `get`-then-`insert(x + 1)` holds exactly the kept characters, each with its number of occurrences. |
| CharFreqTool.CountChars | src/bin/charfreq.rs:16-31 | After the loop the map's keys are exactly the kept characters, and each count is that character's number of occurrences among them. |
| CharFreqTool.Collect | src/bin/charfreq.rs:33 | Collecting gives every map entry exactly once, with distinct keys, in an order the map chooses. |
| CharFreqTool.Insert | src/bin/charfreq.rs:34 | One insertion step extends the ascending prefix by one entry. The new prefix `a[..i+1]` is a permutation of the old one, the entries after it are untouched, and the keys stay distinct. |
| CharFreqTool.SortByKey | src/bin/charfreq.rs:34 | Sorting by character gives a strictly ascending permutation, because the keys are distinct. |
| CharFreqTool.TableFacts | src/bin/charfreq.rs:17-34 | Each entry of the sorted table counts a kept character exactly, every kept character has an entry, and the counts add up to the number of kept characters. |
| CharFreqTool.Tabulate | src/bin/charfreq.rs:16-34 | The table is strictly ascending by character. Every key is at most `'z'` and not CR. Each count is that character's number of occurrences among the kept characters, positive. The keys are exactly the kept characters, and the counts add up to how many were kept. |

## Left out

- AES-128 is a foreign library. The block cipher and its inverse are parameters `E` and `D` on 16-byte blocks. The round-trip members assume `D` inverts `E` (`Inverts(E, D)`).
- `pkcs7_pad` is not part of this model. `Pkcs7.Pkcs7Pad` is a definition that meets the contract of section 6.3 of RFC 5652.
- `decrypt` panics on input that is not block-aligned. `AesCbc.Decrypt` requires aligned input instead.
- `key`, `iv` and `msg` are passed as values, so that they are never modified follows from the types rather than from a contract.
- `CharFreq::from_str` after counting is not modelled: the floating-point frequencies, the magnitude, `dot_product` and `cosine_dist`. The same goes for the float sorts in the CLI drivers.
- CosSim.FromStr: does not model the wrap-around of its `u32` counts. The counts are unbounded naturals, and overflowing would take a text of 4 GiB.
- Cryptopals.ScoreString: models a debug build. An `i16` overflow or a division by zero panics there, and that is expressed as the precondition `FitsI16`. A release build's silent wrap-around is not modelled.
- Cryptopals.ScoreString and Cryptopals.ScoreStringWide: the final `f64` division is computed on reals, so rounding is not modelled.
  - The empty text is excluded by a precondition, because it divides by zero.
  - Every dividend is non-negative, so Dafny's division agrees with Rust's truncating division.
- Texts given to `from_str` and `score_string` are modelled by their UTF-8 bytes. `str::is_ascii` therefore means every byte is below 128.
- `io::Read` errors and their propagation by `?` are not modelled. The wrapped reader is a queue of chunks (`ChunkSource`) that returns short reads. Writes to a `&mut [u8]` never fail.
- IoUtils.SkipNewlinesReader.Read: promises that `buf[|chunk|..]` keeps its old bytes. That holds because `ChunkSource` writes only the bytes it returns. A general `io::Read` may write anywhere in `buf[..max_len]`, so for such a reader only `buf[max_len..]` is guaranteed unchanged.
- The `charfreq` tool's command-line handling, file reading and printing are not modelled. Neither is Unicode `char::to_lowercase`, a library table: `Tabulate` takes the lower-cased characters as input. Its `usize` counts are unbounded.
- The order of `HashMap::into_iter` is unspecified. `Collect` chooses the next key arbitrarily.
- `sort_by_key` is a standard-library sort. `SortByKey` is an insertion sort with the same contract for distinct keys.
- These are outside the core and not modelled: the CLI drivers (`src/bin/s1c*.rs`, `src/bin/s2c10*.rs`), `hamming_distance`, `brute_force_single_byte_xor` and `CharFreq::from_csv`.

## Findings

| source | as written | input that shows it | evidently intended | confidence | as-written member | corrected member |
|---|---|---|---|---|---|---|
| src/lib.rs:19 | `counts[i] * 1000` is computed in `i16`, so any count above 32 overflows. | A text of 33 `a` bytes: it is printable, but 33 * 1000 = 33000 > 32767. | Every printable non-empty text gets a score in `[1/2005, 1]`, with the per-mille step computed in a wider type. | not executed | Cryptopals.ScoreString, Cryptopals.OverflowWitness | Cryptopals.ScoreStringWide |
