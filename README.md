# cipher_tools in Dafny

A model of the cipher core of the `cipher_tools` Rust crate, with proofs about it:

- **PKCS#7 padding** (`Pkcs7Padding` in src/padding/pkcs7.rs). `apply_padding` appends
  `p = b - |data| mod b` bytes of value `p`. `strip_padding` checks its parameters,
  validates the padding and removes it. The crate adds its own parameter checks: empty
  data is refused, and so is a block size outside 1..255. The scheme is the one of
  section 6.3 of RFC 5652.
- **Keyed columnar transposition** (src/cipher/transposition_cipher.rs).
  - `encrypt` pads the plaintext to a multiple of the key length. It lays the result out
    row by row in a matrix with one column per key byte. It reads the columns out in the
    order of a stable sort of the key bytes.
  - `decrypt` checks the lengths. It fills a zeroed matrix column by column in the same
    order, flattens it row by row and strips the padding.
- **Keyed substitution** (src/cipher/substitution_cipher.rs).
  - The cipher owns the alphabet `A..Z a..z 0..9`. A 62-byte key replaces the byte at
    alphabet position `p` by `key[p]`. Bytes outside the alphabet pass through unchanged.
  - `decrypt` builds a reverse key in a loop and substitutes with it.
- The error enums of src/padding/mod.rs and src/cipher/mod.rs.

Files, one module each: `prelude.dfy` (the `u8` byte type, `Option`, `Result`),
`padding.dfy` and `cipher.dfy` (the error types, and the `map_err` wrapping of padding
errors), `arith.dfy` (facts about division by a variable divisor), `pkcs7.dfy`,
`transposition_cipher.dfy` and `substitution_cipher.dfy`.

Pure code is modelled as functions. Code that mutates is modelled as methods:
- the loop of `create_transposition_matrix`;
- the nested fill loops of transposition `decrypt`, on an `array2`;
- the push loop of `substitute`;
- the reverse-key loop of substitution `decrypt`, on an `array`.

Each method is proved equal to a specification function. The lemmas then state what the
source promises about those functions.

Two places where the crate's doc comments and its code disagree (the model follows
the code):
- The doc comments of transposition `encrypt` and `decrypt` ask only that the key be
  non-empty (src/cipher/transposition_cipher.rs:20,55). But `encrypt` passes `key.len()`
  to `apply_padding` as the block size (line 33), and `apply_padding` refuses a block
  size above 255 (src/padding/pkcs7.rs:30). So a key of 256 bytes or more makes `encrypt`
  fail with `PaddingValidationError(ParameterError)`. The round trip is proved for keys
  of 1 to 255 bytes (`TranspositionCipher.DecryptInvertsEncrypt`), and
  `TranspositionCipher.Encrypt` states exactly when encryption succeeds.
- The substitution comments require the key to be a permutation of the alphabet
  (src/cipher/substitution_cipher.rs:22,42,61), but the code checks only its length. For
  any other 62-byte key the code still gives a definite reverse key: the last duplicate
  wins, and unassigned slots stay 0 (`SubstitutionCipher.ReverseKeyAt`). The round trip
  holds exactly when the key is a permutation of the alphabet.
  `SubstitutionCipher.SubstitutionRoundTrip` proves one direction,
  `SubstitutionCipher.RoundTripNeedsPermutation` the other, and
  `SubstitutionCipher.RoundTripIffPermutation` states both together.

## Model

| member | source | states |
|---|---|---|
| Pkcs7.ApplyPadding | src/padding/pkcs7.rs:19-44 | fails, with `ParameterError`, exactly when the data is empty or the block size is outside 1..255; otherwise the data is kept as a prefix, the length becomes the least multiple of the block size strictly above the data length, and every appended byte equals the number of bytes appended |
| Pkcs7.ValidatePadding | src/padding/pkcs7.rs:103-127 | succeeds exactly when the last byte `p` lies in 1..block size and the last `p` bytes all equal `p`; every failure is `PaddingError` |
| Pkcs7.StripPadding | src/padding/pkcs7.rs:57-90 | `ParameterError` for empty data, a block size outside 1..255 or a length that is not a multiple of it; otherwise succeeds exactly when the data is well padded, fails with `PaddingError` exactly when it is not, and on success returns the data without its last `p` bytes |
| Pkcs7.StripApply | src/padding/pkcs7.rs:37-41 | stripping undoes padding for every input `apply_padding` accepts |
| Pkcs7.ApplyStrip | src/padding/pkcs7.rs:84-87 | padding undoes stripping whenever stripping succeeds with a non-empty result |
| Pkcs7.Examples | tests/pkcs7_test.rs:4-21 | the two test cases (`[1,2,3]` pads to `[1,2,3,1]` and strips back), plus a full padding block, malformed padding and a misaligned length |
| Cipher.WrapPaddingError | src/cipher/transposition_cipher.rs:32-34 | the `map_err` into `CipherOperationError::PaddingValidationError` (also at line 93, in `decrypt`): a padding error comes back wrapped in `PaddingValidationError`, a success value unchanged |
| TranspositionCipher.Insert | src/cipher/transposition_cipher.rs:127-128 | inserting a new column into a stably sorted list of columns keeps it stably sorted and adds exactly that column |
| TranspositionCipher.SortPrefix | src/cipher/transposition_cipher.rs:126-128 | the first `m` columns, each once, stably sorted by key byte |
| TranspositionCipher.SortedKeyIndices | src/cipher/transposition_cipher.rs:126-133 | the result lists every column index exactly once, in non-decreasing order of key byte, equal bytes in ascending index |
| TranspositionCipher.SortedKeyIndicesUnique | src/cipher/transposition_cipher.rs:127-128 | any ordering of the columns sorted by key byte with ties in index order is the one computed, so every stable sort gives it |
| TranspositionCipher.TranspositionMatrix | src/cipher/transposition_cipher.rs:105-117 | the matrix has as many rows as `width`-byte chunks of the data (the length divided by `width`, rounded up), each of `width` cells |
| TranspositionCipher.TranspositionMatrixCells | src/cipher/transposition_cipher.rs:110-113 | cell `(row, col)` is byte `row * width + col` of the data, or 0 past its end |
| TranspositionCipher.CreateTranspositionMatrix | src/cipher/transposition_cipher.rs:105-117 | the chunk loop, with its zeroed rows and copies, builds exactly TranspositionMatrix |
| TranspositionCipher.Encrypt | src/cipher/transposition_cipher.rs:25-49 | `InvalidKeySize(0)` for an empty key; otherwise a padding error comes back wrapped; succeeds exactly for a non-empty plaintext and a key of 1..255 bytes, with a ciphertext whose length is a multiple of the key length, above the plaintext length by at most one key length |
| TranspositionCipher.Column | src/cipher/transposition_cipher.rs:45 | one byte per row: cell `col` of each row, in row order |
| TranspositionCipher.ReadColumns | src/cipher/transposition_cipher.rs:43-46 | the columns listed in `order`, one after another: `rows` bytes per listed column (the cell form is ReadColumnsAt) |
| TranspositionCipher.ReadColumnsAt | src/cipher/transposition_cipher.rs:43-46 | byte `j * rows + row` of the read is cell `row` of column `order[j]` |
| TranspositionCipher.EncryptReadsSortedColumns | src/cipher/transposition_cipher.rs:36-46 | with `perm` the sorted key indices, ciphertext byte `j * rows + row` is padded byte `row * n + perm[j]`; the ciphertext is exactly as long as the padded plaintext |
| TranspositionCipher.EncryptIsRearrangement | src/cipher/transposition_cipher.rs:36-46 | the ciphertext is a permutation (equal multiset) of the padded plaintext |
| TranspositionCipher.Untranspose | src/cipher/transposition_cipher.rs:74-90 | the buffer that `decrypt` rebuilds and flattens is as long as the ciphertext; its cells are given by UntransposeAt |
| TranspositionCipher.UntransposeAt | src/cipher/transposition_cipher.rs:81-90 | cell `(row, c)` of the rebuilt buffer is cell `row` of the column read at position `IndexOf(perm, c)` |
| TranspositionCipher.UntransposeTranspose | src/cipher/transposition_cipher.rs:81-90 | rebuilding undoes the column read, for every permutation of the columns |
| TranspositionCipher.TransposeUntranspose | src/cipher/transposition_cipher.rs:43-46 | the column read undoes rebuilding: the two are inverse bijections |
| TranspositionCipher.FillColumn | src/cipher/transposition_cipher.rs:83-86 | the inner loop copies the next `rows` ciphertext bytes down column `perm[j]` and advances the running index by `rows`; afterwards the columns read at positions up to `j` hold their ciphertext bytes and all others are still 0 |
| TranspositionCipher.FillMatrix | src/cipher/transposition_cipher.rs:74-87 | the nested loops leave in every cell `(row, c)` the ciphertext byte of cell `row` of the column read at position `IndexOf(perm, c)` |
| TranspositionCipher.FlattenRows | src/cipher/transposition_cipher.rs:90 | cell `(row, col)` of the matrix lands at `row * width + col` of the flattened buffer |
| TranspositionCipher.FilledMatrixFlattens | src/cipher/transposition_cipher.rs:89-90 | a matrix filled that way flattens to Untranspose of the ciphertext |
| TranspositionCipher.Decrypt | src/cipher/transposition_cipher.rs:60-94 | `InvalidKeySize(0)` for an empty key, `InvalidEncryptedMessageLength` for a length that is not a multiple of the key length, otherwise the stripped Untranspose with padding errors wrapped; an empty ciphertext or a key longer than 255 gives `PaddingValidationError(ParameterError)` |
| TranspositionCipher.DecryptInvertsEncrypt | src/cipher/transposition_cipher.rs:25-94 | decrypting the ciphertext of a non-empty plaintext under a key of 1..255 bytes gives the plaintext back |
| TranspositionCipher.EncryptThenDecrypt | src/cipher/transposition_cipher.rs:25-94 | running encrypt and then the decrypt method returns `Ok(plaintext)` |
| SubstitutionCipher.Alphabet | src/cipher/substitution_cipher.rs:12-19 | 62 distinct bytes, containing exactly the ASCII letters and digits |
| SubstitutionCipher.AlphabetAt | src/cipher/substitution_cipher.rs:13-16 | upper-case letters at positions 0..25, lower-case at 26..51, digits at 52..61 |
| SubstitutionCipher.IndexIn | src/cipher/substitution_cipher.rs:25 | `None` exactly when the byte is absent; otherwise the first position holding it |
| SubstitutionCipher.Position | src/cipher/substitution_cipher.rs:25 | a position exists exactly for letters and digits, and the alphabet holds the byte there |
| SubstitutionCipher.PositionOfAlphabet | src/cipher/substitution_cipher.rs:25 | every alphabet byte is found at its own position |
| SubstitutionCipher.PositionFormula | src/cipher/substitution_cipher.rs:13-16 | the position of a letter or digit by arithmetic on its code |
| SubstitutionCipher.Substitution | src/cipher/substitution_cipher.rs:21-37 | length kept; a letter or digit becomes the key byte at its alphabet position, every other byte is unchanged |
| SubstitutionCipher.Substitute | src/cipher/substitution_cipher.rs:21-37 | the push loop returns exactly Substitution |
| SubstitutionCipher.Encrypt | src/cipher/substitution_cipher.rs:41-50 | `InvalidKeySize` carrying the key length unless the key has the alphabet's length; otherwise the substitution under the key |
| SubstitutionCipher.ReverseKeyPrefix | src/cipher/substitution_cipher.rs:66-72 | the reverse key after the first `m` key bytes, as long as the key; its slots are given by ReverseKeyPrefixUnset and ReverseKeyPrefixLast |
| SubstitutionCipher.ReverseKey | src/cipher/substitution_cipher.rs:66-72 | the reverse key after the whole loop, 62 bytes long; its slots are given by ReverseKeyAt |
| SubstitutionCipher.ReverseKeyPrefixUnset | src/cipher/substitution_cipher.rs:67-72 | a slot that no key byte processed so far names stays 0 |
| SubstitutionCipher.ReverseKeyPrefixLast | src/cipher/substitution_cipher.rs:68-71 | a slot holds the alphabet byte at the index of the last key byte naming it: a later duplicate overwrites an earlier one |
| SubstitutionCipher.ReverseKeyAt | src/cipher/substitution_cipher.rs:66-72 | the whole reverse key, slot by slot, by the two rules above |
| SubstitutionCipher.BuildReverseKey | src/cipher/substitution_cipher.rs:67-72 | the loop over the key fills exactly ReverseKey |
| SubstitutionCipher.Decrypt | src/cipher/substitution_cipher.rs:60-77 | `InvalidKeySize` carrying the key length unless the key has the alphabet's length; otherwise the substitution under the reverse key |
| SubstitutionCipher.ReverseKeyInverts | src/cipher/substitution_cipher.rs:66-75 | with a permutation key, the reverse key maps `key[p]` back to the alphabet byte at `p` |
| SubstitutionCipher.SubstitutionRoundTrip | src/cipher/substitution_cipher.rs:41-77 | decrypt after encrypt gives every text back when the key is a permutation of the alphabet; bytes outside the alphabet pass through both ways |
| SubstitutionCipher.RoundTripNeedsPermutation | src/cipher/substitution_cipher.rs:60-77 | conversely, a key of the right length under which the alphabet itself makes the round trip is a permutation of the alphabet |
| SubstitutionCipher.RoundTripIffPermutation | src/cipher/substitution_cipher.rs:21-77 | for a key of the alphabet's length: the alphabet survives encrypt then decrypt if and only if the key is a permutation of the alphabet |
| SubstitutionCipher.EncryptThenDecrypt | src/cipher/substitution_cipher.rs:41-77 | running the encrypt and decrypt methods with a permutation key returns `Ok(plain)` |

## Left out

- bin/cli.rs and src/main.rs: argument parsing, printing and hex output are I/O glue around the ciphers.
- `encrypt_and_base64` (src/cipher/substitution_cipher.rs:52-58): a wrapper over the external base64 encoder.
- The `info!` and `warn!` logging calls: they only write to the log.
- The display strings of the error enums, and the variants `InvalidBlockLength` and `InvalidMessageLength`, which nothing constructs. The model keeps the variants the code produces.
- `ensure_valid_key` (src/cipher/mod.rs:45-50): nothing calls it.
- The `EncryptionAlgorithm` and `PaddingStrategy` traits and the `Box<dyn PaddingStrategy>` field. The transposition cipher is modelled with its PKCS#7 strategy fixed. substitution_cipher.rs implements a `Cipher` trait that src/cipher/mod.rs does not declare, and that trait is not part of this model.
- Pkcs7.ApplyPadding: the block size is an unbounded `nat` rather than a `u32`, and the truncation in `data.len() as u32` is not modelled. Lengths are assumed to fit in 32 bits.
- Pkcs7.ValidatePadding: its requires exclude the two inputs on which the source panics: empty data, and a last byte that passes the range check but exceeds the data length. `strip_padding`, its only caller, never passes either.
- TranspositionCipher.Encrypt: the `key.len() as u32` truncation is not modelled. A key of 2^32 bytes or more would wrap in the source.
- TranspositionCipher.SortedKeyIndices: the library's stable `sort_by_key` is modelled by an insertion sort. SortedKeyIndicesUnique shows that every stable sort gives the same result.
- TranspositionCipher.Decrypt: the `Vec<Vec<u8>>` matrix is an `array2`. The outer and inner fill loops are two methods (FillMatrix, FillColumn) rather than one nested loop. Allocation failure is not modelled.
- SubstitutionCipher.Alphabet: the struct's one field is never changed after `new`, so it is a function and not an object. Encrypt and Decrypt take no receiver.
- SubstitutionCipher.Substitute: its requires excludes texts on which `key[position]` would index past the key's end, where the source panics. Encrypt and Decrypt never pass such a text, because both keys then have 62 bytes.
