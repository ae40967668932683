# SmugSecureFiles — verified model of the secure-file transform

SmugSecureFiles is a console utility that "secures" a file by encrypting it
with AES-128 in CBC mode into a `.ssf` container, and "accesses" such a
container by decrypting it back into a file with an extension the user
chooses. The key is derived from a passphrase by repetition and truncation.
The container is the 16-byte IV followed by the ciphertext.

This project models the logic of `Main.cs` without the console:

- **Passphrase** (`passphrase.dfy`): the padding loop of `GetPasswordFromUser`
  turns a non-empty passphrase into exactly 16 characters. Character `i` is
  `raw[i % |raw|]`. The ASCII encoding then makes them the 16-byte key.
- **FileNames** (`filenames.dfy`): `LastIndexOf('.')` and the split into
  stem and extension, the container name `stem + ".ssf"`, and the `.ssf`
  path check of `Access`. It also covers the normalisation of the requested
  extension, and the name of the decrypted file.
- **Streams** (`streams.dfy`): the file being read, the file being written
  and the decrypting `CryptoStream`, as classes whose position or contents
  change in place. A read may be short. It returns 0 only at the end of the
  stream or when nothing was asked.
- **Container** (`container.dfy`): AES-CBC with padding as an abstract pair
  of functions (`Cipher`), with the hypothesis `Inverts` that decryption
  undoes encryption. The module has the layout `IV ++ ciphertext`, the IV
  read loop of `Access` with its zero-padded IV for a truncated container,
  the loop that collects decrypted bytes up to the `-1` end marker, and the
  final `Read` that leaves the buffer unchanged.
- **SecureFiles** (`securefiles.dfy`): the cores of `Secure` and `Access`.
  It also has a client that runs one file through both and gets its path
  and bytes back.

Three behaviours of the code are easy to miss; the model keeps them:

- A container shorter than 16 bytes is decrypted with a zero-padded IV. It
  is not rejected.
- The stem is taken at the last `'.'` of the whole path, directories
  included. So `logs.d/report` is secured as `logs.ssf`
  (`FileNames.StemBeforeLastDot`).
- `Secure` reads the plaintext with one `Read` call and ignores the count it
  returns. A short read would leave trailing zeros in the encrypted buffer
  (`SecureFiles.ReadPrefix`). The round trip is therefore stated for the
  bytes actually read. It is exact when the read was complete.

## Model

| member | source | states |
|---|---|---|
| `Passphrase.NormalizePassword` | Main.cs:103-114 | For every non-empty passphrase, the padding loop terminates. The result is the reference password: 16 characters, character `i` being `raw[i % |raw|]`. Loop invariant: the password is `raw` repeated k ≥ 1 times. |
| `Passphrase.NormalizedPassword` | Main.cs:103-114 | Reference definition of the normalised password: always 16 characters. Character `i` is `raw[i % |raw|]`. It starts with the passphrase when that is at most 16 long, and is the passphrase's first 16 characters when it is at least 16 long. |
| `Passphrase.RepeatAt` | Main.cs:109-112 | `raw` repeated k times has length `k * |raw|`, and position `i` holds `raw[i % |raw|]`. This is what the appending loop builds. |
| `Passphrase.ExactPasswordUnchanged` | Main.cs:104-114 | A passphrase of exactly 16 characters is returned unchanged. |
| `Passphrase.LongPasswordTruncated` | Main.cs:104-114 | A passphrase longer than 16 yields exactly its first 16 characters. |
| `Passphrase.ShortPasswordRepeats` | Main.cs:109-114 | A shorter passphrase is repeated, not padded or rotated. The result starts with the passphrase and has period `|raw|`. |
| `Passphrase.DoubledPasswordSameKey` | Main.cs:109-114 | A passphrase and the same passphrase typed twice give the same 16 characters, hence the same key. |
| `Passphrase.AsciiByte` | Main.cs:140 | An ASCII character keeps its code. Any other character becomes `'?'`. |
| `Passphrase.AsciiBytes` | Main.cs:140 | One byte per character, each the encoding of that character. |
| `Passphrase.PasswordKey` | Main.cs:140 | The key set on `aes.Key` has exactly 16 bytes. Byte `i` is the ASCII encoding of `raw[i % |raw|]`. |
| `Passphrase.KeyIsSixteenBytes` | Main.cs:218 | The key of any non-empty passphrase is exactly 16 bytes. For ASCII characters, byte `i` is the code of `raw[i % |raw|]`. |
| `FileNames.LastIndexOf` | Main.cs:124 | The result is -1 exactly when the character is absent. Otherwise it is an occurrence with no further occurrence after it. |
| `FileNames.SplitExtension` | Main.cs:122-129 | With a `'.'`: stem ++ extension is the path, and the extension starts with its only `'.'`. Without one: the stem is the whole path and there is no extension. |
| `FileNames.SecuredName` | Main.cs:138 | The container name ends in `.ssf`, and what precedes `.ssf` is the stem of the input path. |
| `FileNames.SecuredNameIsInput` | Main.cs:137-138 | The container name equals the input path exactly when the input path already ends in `.ssf`. |
| `FileNames.IsSecuredPath` | Main.cs:168 | A path is accepted for decryption exactly when it is some stem followed by `.ssf`. |
| `FileNames.DecryptedName` | Main.cs:194 | For a container path, the decrypted file's name is the path without `.ssf`, followed by the normalised extension. |
| `FileNames.DecryptedNameIsInput` | Main.cs:193-194 | The decrypted file's name equals the container path exactly when the requested extension normalises to `.ssf`. |
| `FileNames.LastDotAt` | Main.cs:124 | A `'.'` with no `'.'` after it is the one `LastIndexOf` finds. |
| `FileNames.SecuredPathSplit` | Main.cs:168-175 | A path ending in `.ssf` splits into everything before `.ssf` and the extension `.ssf`. |
| `FileNames.SecuredNameRoundTrip` | Main.cs:138 | The container name (stem + `.ssf`) passes the `.ssf` path check. `Access` takes from it the stem that `Secure` took from the original path. |
| `FileNames.NormalizeExtension` | Main.cs:180-185 | Empty stays empty. A non-empty result starts with `'.'`. An input that already starts with `'.'` is unchanged. Otherwise a `'.'` is prepended. |
| `FileNames.NormalizeExtensionIdempotent` | Main.cs:181-185 | Normalising twice equals normalising once. |
| `FileNames.DecryptedNameRestoresOriginal` | Main.cs:194 | Accessing the container of a path while asking for its original extension (with or without the `'.'`) names the original path again. |
| `FileNames.StemBeforeLastDot` | Main.cs:124-129 | Everything after the last `'.'` is the extension, even when it holds a directory separator. The container of `stem.rest` is `stem.ssf`, and accessing it with a non-empty extension `rest` names `stem.rest` again. |
| `Streams.FileSource.constructor` | Main.cs:193 | A stream opened on a file starts at position 0 over the file's bytes. |
| `Streams.FileSource.Read` | Main.cs:205 | Copies the next `n` unread bytes to `buffer[offset..offset+n]` and leaves the rest of the buffer alone. `n` is at most what was asked. `n` is 0 exactly when nothing was asked or the stream is exhausted. |
| `Streams.FileSink.constructor` | Main.cs:138 | A file created with `FileMode.Create` starts empty. |
| `Streams.FileSink.Write` | Main.cs:142 | Appends exactly the given bytes. |
| `Streams.DecryptingStream.constructor` | Main.cs:218 | The decrypting stream yields the bytes the decryptor delivered, including those of the blocks before a last block whose padding check failed, and then ends, in an error when that check failed. |
| `Streams.DecryptingStream.ReadByte` | Main.cs:222 | Returns the next byte and advances. At the end it returns -1, or the decryption error when the padding check failed. |
| `Streams.DecryptingStream.Read` | Main.cs:231 | At the end of an intact stream it returns 0 and leaves the buffer unchanged. Otherwise it copies a prefix of the remaining bytes. |
| `Container.IvOf` | Main.cs:200-213 | The recovered IV is 16 bytes: the container's first 16 bytes, or all of a shorter container followed by zeros. |
| `Container.Seal` | Main.cs:141-151 | The container is the IV followed by the cipher output: its first `|iv|` bytes are the IV, and the rest is the encryption of the plaintext. |
| `Container.CiphertextOf` | Main.cs:218 | For a container of at least 16 bytes, the recovered IV followed by the ciphertext is the container. A shorter container has no ciphertext. |
| `Container.Unseal` | Main.cs:218-231 | The decrypted bytes are delivered before the padding check of the last block. So the result is the array-too-large error exactly when they exceed one array (`0x7FFFFFC7` bytes), even for a rejected ciphertext. Otherwise it is the decrypted bytes when the padding check passed, and the decryption error when it failed. |
| `Container.SealLayout` | Main.cs:141-151 | In a written container, the IV read back is the IV written first. What follows it is exactly the cipher output. |
| `Container.UnsealSeal` | Main.cs:141-231 | If decryption inverts encryption, decrypting a container with the same 16-byte key gives the plaintext back when it fits in one array, and the array-too-large error when it does not. |
| `Container.TruncatedContainer` | Main.cs:200-213 | A container shorter than 16 bytes is not rejected. The IV is its bytes then zeros, and the ciphertext is empty. |
| `Container.ReadIv` | Main.cs:200-213 | On any sequence of short reads, the loop ends with the IV equal to `IvOf` of the unread bytes, and `min(16, available)` bytes read. The stream is left at the ciphertext. Invariants: read + to-read = 16, the filled prefix equals the container's bytes, the rest is still 0. |
| `Container.CollectPlaintext` | Main.cs:219-230 | The list holds exactly the decrypted bytes in order, up to the `-1` marker. If there are more than `0x7FFFFFC7` of them, adding the first byte the full list has no room for fails with the array-too-large error. Otherwise, if the padding check fails, the result is the decryption error. Invariant: the list never exceeds the array limit. |
| `Container.DecryptContainer` | Main.cs:200-231 | Reading the IV, collecting the bytes and the final `Read` together give exactly `Unseal` of the container. |
| `SecureFiles.ReadPrefix` | Main.cs:144-145 | The plaintext buffer has the file's length. It starts with the bytes read, and every position after them is still 0. It is the file itself when the read was complete. |
| `SecureFiles.Secure` | Main.cs:122-151 | The output is named stem + `.ssf`. When that name is the input path, the operation fails with the file-in-use error and nothing is read or written. When the input is longer than `0x7FFFFFC7` bytes, the buffer allocation fails with the array-too-large error after the IV has been written, and nothing is read. Otherwise the input stream ends at the count read, and the written bytes are the IV followed by the encryption of the buffer read from the file, under the ASCII key of the password. |
| `SecureFiles.Access` | Main.cs:170-231 | The output is named (path without `.ssf`) + normalised extension. When that name is the container path, the result is the file-in-use error and nothing is read. Otherwise the result is `Unseal` of the container under the ASCII key, including its array-too-large error for a plaintext longer than one array. |
| `SecureFiles.SecureThenAccess` | Main.cs:103-231 | A file whose path already ends in `.ssf` cannot be secured: the file-in-use error. A file longer than `0x7FFFFFC7` bytes cannot be secured: the array-too-large error. Any other file, secured and then accessed with the same passphrase and its original extension, comes back under its original path. Both sides use the key `PasswordKey` derives from the passphrase. Its bytes come back as `Secure` read them, which is the whole file when that read was complete. |

## Left out

- The console: `Run`, its mode prompt and its case-sensitive dispatch (Main.cs:15-51). Also the prompt and `File.Exists` loop of `GetPathFromUser` (Main.cs:52-87), and the passphrase prompt and its empty-input check (Main.cs:91-101), which is why `NormalizePassword` requires a non-empty passphrase. These are interactive I/O. Their results become parameters: the path, the normalised password, the requested extension.
- AES itself: the block cipher, CBC chaining, PKCS#7 padding and the random IV of `Aes.Create` (Main.cs:139-141, 195). The cipher is an abstract `Cipher` pair. The round trip holds under the hypothesis `Inverts`. The random IV is a parameter of `Secure`.
- The `Aes.Key` setter's rejection of keys that are not 16, 24 or 32 bytes long (Main.cs:140, 218). `Secure` and `Access` require a 16-character password, which the padding loop produces for every passphrase of Dafny characters. The C# key can still be shorter, for the reason given under `Passphrase.AsciiBytes` below, and the setter then makes encryption or decryption fail.
- File open and create failures other than the same-file case below, exceptions from the encryptor, and the `try`/`catch` reporting (Main.cs:137-138, 153-163, 193-194, 236-248). Modelled errors are the decryption (padding) error, `DecryptionFailed`, `FileInUse`, and `ArrayTooLarge`. The partially written output file left by a failure is not modelled.
- SecureFiles.Secure: when the input path already ends in `.ssf`, the container path is the input path (Main.cs:137-138). The model reports `FileInUse`, the sharing violation raised where file sharing is enforced. Where it is not enforced, `FileMode.Create` would truncate the input before it is read, and the result would be a container of an empty plaintext. That platform-dependent outcome is not modelled. Paths are compared as strings: on a case-insensitive file system `Notes.SSF` names the same file as the container `Notes.ssf`, and such case variants and other aliases of one file (links, relative and absolute forms) are not modelled. For them the model reports success where the source fails.
- SecureFiles.Access: when the requested extension normalises to `.ssf`, the output path is the container path (Main.cs:193-194). The model reports `FileInUse` as for `Secure`. The truncation that happens where file sharing is not enforced is not modelled. Paths are compared as strings, so an extension such as `SSF` for `x.ssf` on a case-insensitive file system, and other aliases of the container, are not modelled.
- Memory exhaustion below the array limit. `ArrayTooLarge` models only the fixed largest array length, `0x7FFFFFC7` elements, which holds for `new byte[n]` (Main.cs:144) and for the list of Main.cs:219-230; an allocation that fails earlier for lack of memory is not modelled.
- Writing the decrypted bytes to the new file (Main.cs:236). `Access` returns them instead.
- DEBUG logging, SDL initialisation and the endless loop of `Program.Main` (Main.cs:1-6; Program.cs:16-25). Only `Program.SecuredExtension` (Program.cs:12) is used.
- Passphrase.AsciiBytes: works per Dafny character (a Unicode scalar value), while C# counts UTF-16 code units. A passphrase with characters outside the Basic Multilingual Plane is therefore not modelled. In C# each such character is two code units in the padding loop but one `'?'` in the ASCII encoding, so the key comes out shorter than 16 bytes (a passphrase of one emoji gives an 8-byte key), and the `Aes.Key` setter (Main.cs:140) rejects it.
- FileNames.IsSecuredPath: an ordinal suffix test. .NET's `EndsWith(string)` compares with the current culture, which may ignore some zero-width characters.
- SecureFiles.SecureThenAccess: the round trip is promised for every path not ending in `.ssf` as a string. On a case-insensitive file system a path such as `Notes.SSF` cannot be secured (see `SecureFiles.Secure` above), which the model does not capture.
- Streams.DecryptingStream.constructor: the decryptor's bytes are given at once. The real `CryptoStream` decrypts block by block as the bytes are read, and raises the padding error when it reaches the last block.
- Container.DecryptContainer: the decryptor is handed the whole remainder of the container at once, and the file stream is not advanced past the IV. The real `CryptoStream` pulls the ciphertext from the file stream lazily.
- The encrypting `CryptoStream` is modelled as writing the whole cipher output at once. The real one writes it in blocks and flushes the last block on disposal.
