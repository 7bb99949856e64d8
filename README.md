# Baidu Netdisk encrypted-file decryptor, modelled in Dafny

This project models the core of a small decryptor for files written by an
encrypting tool. The core is `decrypt.py`. A container is laid out as
`salt(16) || iv(16) || ciphertext`. The key is derived from a password with
PBKDF2-HMAC-SHA256 (100000 iterations, 32 bytes). The ciphertext is decrypted
with AES-256 in CBC mode, and PKCS#7 padding is removed. On top of this sit
the following operations:

- `is_encrypted_file`, a cheap size-and-header check;
- `decrypt_file`, which picks an output path, decrypts one file, writes the
  plaintext and optionally removes the source;
- `decrypt_directory`, which walks a listing, decrypts likely containers, and
  copies through or skips the other files. It keeps four counters and reports
  progress.

Modules, in dependency order:

- `Wrappers` (`wrappers.dfy`): `Option` and `Result`.
- `BlockCipher` (`block_cipher.dfy`): bytes and blocks, CBC chaining written over an
  opaque AES block function, pycryptodome's `AES.new`/`decrypt` checks, PKCS#7
  `Pad`/`Unpad`.
- `KeyDerivation` (`key_derivation.dfy`): UTF-8 encoding of the password, and
  `derive_key` over an opaque PBKDF2 function.
- `Container` (`container.dfy`): the container split with Python's clamped
  slices, `decrypt_data`, and a reference sealer that lays containers out the
  same way.
- `Paths` (`paths.dfy`): `posixpath.basename`, `dirname` and `join`, and the
  choice of the output path.
- `FileSystem` (`filesystem.dfy`): an abstract filesystem with fixed directories
  and permissions, pure `ReadFile`/`WriteFile`/`RemoveFile`/`CopyFile`, and a
  class whose methods perform them in place.
- `FileDecryptor` (`file_decryptor.dfy`): `is_encrypted_file` and `decrypt_file`,
  as a specification function plus an imperative method proved against it.
- `TreeWalker` (`tree_walker.dfy`): `decrypt_directory`, as a fold over the
  listing plus a `while` loop with four counters proved against it.

Foreign code becomes parameters. PBKDF2 (`hashlib.pbkdf2_hmac`) and the AES
block function (pycryptodome) are the two function-typed fields of
`Container.Primitives`. Properties that need them hold for every choice. The
round trip assumes two things: the decryption function inverts the encryption
function, and PBKDF2 returns the 32 bytes requested. The directory listing is an input sequence of paths relative to the
root. The progress callback is a returned sequence of the calls it receives.

## Model

| member | source | states |
|---|---|---|
| BlockCipher.XorCancels | decrypt.py:37 | xoring the same block twice restores the original block |
| BlockCipher.DecryptBlocks | decrypt.py:37 | CBC decryption of block-aligned data preserves the length |
| BlockCipher.DecryptBlocksChaining | decrypt.py:37 | block j of the plaintext is D(K, C_j) xor C_(j-1), with C_0 the IV (the chaining equation of NIST SP 800-38A, section 6.2) |
| BlockCipher.EncryptBlocks | decrypt.py:36-37 | reference CBC encryption preserves the length |
| BlockCipher.DecryptEncryptBlocks | decrypt.py:36-37 | if the block decryption inverts the block encryption, CBC decryption undoes CBC encryption |
| BlockCipher.CbcDecrypt | decrypt.py:36-37 | succeeds exactly when the key is 16, 24 or 32 bytes, the IV is 16 bytes and the data is block-aligned; a bad key is reported first; the output is as long as the input |
| BlockCipher.Unpad | decrypt.py:38 | succeeds exactly on valid PKCS#7 padding; the result is a proper prefix, at most 16 bytes shorter, and every removed byte equals the number of bytes removed |
| BlockCipher.Pad | decrypt.py:38 | padding yields a block-aligned extension of the message by 1 to 16 bytes |
| BlockCipher.UnpadPad | decrypt.py:38 | unpadding a padded message returns the message |
| BlockCipher.PadUnpad | decrypt.py:38 | whatever unpad accepts is exactly the padding of what it returns, so the padding is unique |
| KeyDerivation.EncodeChar | decrypt.py:28 | a character takes 1 byte below U+0080, 2 below U+0800, 3 below U+10000 and 4 above; the lead byte carries the tag for that length (0xxxxxxx, 110xxxxx, 1110xxxx, 11110xxx), the rest are 10xxxxxx continuation bytes, and an ASCII character is its own byte |
| KeyDerivation.Utf8Encode | decrypt.py:28 | in total, the encoding is at least as long as the password and at most four times as long; the length of each character's bytes is stated by EncodeChar |
| KeyDerivation.Utf8EncodeAscii | decrypt.py:28 | an ASCII password is fed to PBKDF2 byte for byte |
| KeyDerivation.Utf8EncodeLengthAscii | decrypt.py:28 | only ASCII passwords encode to as many bytes as they have characters |
| KeyDerivation.DecodeEncodeChar | decrypt.py:28 | a reference decoder, which reads the length from the lead byte's tag and concatenates the payload bits, recovers every character's code point from its encoding |
| KeyDerivation.Utf8DecodeEncode | decrypt.py:28 | decoding the encoding of any password, ASCII or not, gives back its code points |
| KeyDerivation.Utf8EncodeInjective | decrypt.py:28 | distinct passwords are fed to PBKDF2 as distinct byte strings |
| KeyDerivation.DeriveKey | decrypt.py:26-28 | the derived key is 32 bytes whenever PBKDF2 honours the requested length |
| Container.DecryptData | decrypt.py:30-39 | split at 16 and 32, a key from the password and the salt, CBC decryption under the IV, then unpadding; its contract is stated by DecryptDataSucceeds, DecryptDataRejectsMalformed and DecryptSealed |
| Container.Split | decrypt.py:32-34 | the three parts always concatenate back to the data; for data of at least 32 bytes they are bytes 0-16, 16-32 and 32-end; shorter data gives a short IV and an empty ciphertext |
| Container.DecryptDataSucceeds | decrypt.py:30-39 | a successful decrypt_data saw a block-aligned container with at least one block; the plaintext is 1 to 16 bytes shorter than the ciphertext; CBC decryption of the ciphertext under the derived key is exactly the padded plaintext |
| Container.DecryptDataRejectsMalformed | decrypt.py:32-37 | data shorter than the header fails with an IV-length error, and an unaligned ciphertext fails with an alignment error |
| Container.Seal | decrypt.py:32-34 | a sealed container is block-aligned, has at least one block and starts with the given salt and IV |
| Container.DecryptSealed | decrypt.py:30-39 | decrypting a sealed container with the sealing password returns the plaintext |
| Paths.LastSep | decrypt.py:59 | the index of the last separator, with no separator after it |
| Paths.Basename | decrypt.py:59 | everything after the last separator: it has no separator, it is a suffix of the path, and it is either the whole path or preceded by a separator |
| Paths.RStripSeps | decrypt.py:65 | the result is a prefix, only separators were removed, and it does not end in a separator |
| Paths.Dirname | decrypt.py:65 | the head up to the last separator, with trailing separators stripped unless it has nothing else; stated by DirnameShape, DirnameJoin and DirnameSingleSep |
| Paths.Join | decrypt.py:60 | a component starting with a separator replaces the directory, otherwise a separator is inserted unless the directory is empty or already ends in one; stated by JoinAbsolute, JoinUnseparated, BasenameJoin and DirnameJoin |
| Paths.JoinAbsolute | decrypt.py:60 | joining a component that starts with a separator gives that component, whatever the directory |
| Paths.JoinUnseparated | decrypt.py:60 | joining a component that does not start with a separator appends it after the directory's join prefix |
| Paths.Truthy | decrypt.py:57-58 | None and the empty string are both false, as the `if not output_file_path` and `if output_dir` tests read them; its effect is stated by ResolveOutputPathCases |
| Paths.LowerAscii | decrypt.py:62 | `lower()` on one character, for ASCII letters; its effect is stated by ResolveOutputPathCases through EndsWithEncIgnoringCase |
| Paths.EndsWithEncIgnoringCase | decrypt.py:62 | `path.lower().endswith('.enc')`; ResolveOutputPathCases states that the four characters it matches are exactly those removed |
| Paths.ResolveOutputPath | decrypt.py:57-67 | the four-way choice of the output path; stated by ResolveOutputPathCases and DecOutputAppendsSuffix |
| Paths.DirnameShape | decrypt.py:65 | dirname is empty, all separators, or does not end in a separator |
| Paths.BasenameJoin | decrypt.py:60 | joining a separator-free name onto a directory gives that name back as the base name |
| Paths.DirnameJoin | decrypt.py:67 | joining a separator-free name onto a dirname gives back that directory as the dirname |
| Paths.ResolveOutputPathCases | decrypt.py:57-67 | an explicit output path wins; with an output directory the base name is kept inside it; a case-insensitive `.enc` suffix is removed exactly; otherwise the output stays in the input's directory and its base name gains `.dec` |
| Paths.DirnameSingleSep | decrypt.py:65 | with one separator before the base name, dirname is everything before that separator |
| Paths.JoinPrefixDirname | decrypt.py:65-67 | with at most one separator before the base name, joining onto dirname puts back exactly the head dirname dropped |
| Paths.DirnameBasenameSplit | decrypt.py:65-67 | such a path is its dirname's join prefix followed by its base name |
| Paths.JoinDirnameBasename | decrypt.py:65-67 | joining dirname with the base name plus a suffix appends the suffix to the path |
| Paths.DecOutputAppendsSuffix | decrypt.py:62-67 | without a doubled separator before the base name, the `.dec` output path is the input path with `.dec` appended |
| FileSystem.Exists | decrypt.py:54 | `os.path.exists`: a regular file or a directory; DecryptFileOutcomes states that not-found is reported exactly when it is false |
| FileSystem.ReadFile | decrypt.py:72-73 | reading succeeds exactly for an existing, readable regular file, and returns its bytes |
| FileSystem.WriteFile | decrypt.py:80-81 | writing succeeds exactly for a writable non-directory path; the path then holds the data and every other file is unchanged |
| FileSystem.RemoveFile | decrypt.py:84 | removal succeeds exactly for an existing, deletable regular file; it removes that file and nothing else |
| FileSystem.CopyFile | decrypt.py:125 | copying succeeds exactly when source and target differ, the source is readable and the target writable; the target then holds the source's bytes |
| FileSystem.FileSystem.Read | decrypt.py:72-73 | the read performed in place returns what ReadFile does, and changes nothing |
| FileSystem.FileSystem.Write | decrypt.py:80-81 | the new file map is WriteFile's, or the old one when it fails |
| FileSystem.FileSystem.Remove | decrypt.py:84 | the new file map is RemoveFile's, or the old one when it fails |
| FileSystem.FileSystem.Copy | decrypt.py:125 | the new file map is CopyFile's, or the old one when it fails |
| FileDecryptor.IsEncryptedFile | decrypt.py:41-50 | true exactly for an existing, readable regular file of at least 48 bytes |
| FileDecryptor.FileMessage | decrypt.py:54-88 | the four messages `decrypt_file` returns, one per outcome; DecryptFile returns the message of the specification's outcome |
| FileDecryptor.DecryptFileSpec | decrypt.py:52-88 | exists check, output path, read, classification, decryption, write and optional removal, in the source's order; stated by DecryptFileOutcomes, DecryptFileFailureGating, DecryptFileSuccess and DecryptFileOntoItself |
| FileDecryptor.DecryptFile | decrypt.py:52-88 | the boolean, the message and the files afterwards are those of the specification DecryptFileSpec |
| FileDecryptor.DecryptFileOutcomes | decrypt.py:54-88 | not-found iff the input does not exist; not-a-container iff it is readable but fails the check; success iff it is a container that decrypts, the output is writable, and the source may be removed when required |
| FileDecryptor.DecryptFileFailureGating | decrypt.py:71-88 | a failure removes nothing; it writes nothing, except when only the final removal failed, in which case exactly the plaintext was written |
| FileDecryptor.DecryptFileSuccess | decrypt.py:78-86 | a success writes exactly the decrypted plaintext to the output path and removes the source iff keep_original is false; paths are compared as strings, so an output that respells the input is not covered (see Left out) |
| FileDecryptor.DecryptFileOntoItself | decrypt.py:52-86 | with the output path equal to the input and keep_original false, success leaves no file at that path |
| TreeWalker.Bump | decrypt.py:119-137 | exactly the counter the tally names rises by one, the other three are unchanged, so the total rises by one |
| TreeWalker.Step | decrypt.py:111-137 | one iteration of the loop: decrypt, copy through or skip, by mode; stated by StepDecryptsContainers, StepCopiesOthers, StepSkipsOthersInPlace and StepTallies |
| TreeWalker.StepDecryptsContainers | decrypt.py:113-135 | a likely container is handed to decrypt_file with target `output_dir/rel` (or no output path), and its outcome is counted |
| TreeWalker.StepCopiesOthers | decrypt.py:123-128 | with an output directory, any other file is copied byte for byte to `output_dir/rel`; the files afterwards are exactly the old ones plus that copy, minus the source when keep_original is false (target and source compared as strings, see Left out); a failing copy raises and changes nothing, a failing removal raises after the copy |
| TreeWalker.StepSkipsOthersInPlace | decrypt.py:136-137 | without an output directory, any other file is left alone and counted as skipped |
| TreeWalker.StepTallies | decrypt.py:113-137 | with an output directory nothing is skipped; without one nothing is copied and, in the model, nothing raises (the source can still raise from `os.makedirs("")`, see Left out) |
| TreeWalker.StepOfTallies | decrypt.py:113-137 | the loop body, as a step function, tallies by mode for every file map and path |
| TreeWalker.Run | decrypt.py:106-137 | the loop as a fold over the listing, stopping at the first file that raises; stated by RunTallied, RunRaised, RunCounts, RunHalts and RunStaysHalted |
| TreeWalker.RunTallied | decrypt.py:107-137 | a file that is tallied keeps the loop running with its counter bumped |
| TreeWalker.RunRaised | decrypt.py:107-144 | a file that raises halts the loop at its index with the files as the raise left them |
| TreeWalker.RunCounts | decrypt.py:95-137 | for a loop body that tallies by mode, after a pass every file has incremented exactly one counter and the mode-specific counter stays zero |
| TreeWalker.RunHalts | decrypt.py:100-144 | for a loop body that tallies by mode, a batch can only halt when an output directory is given, at an index inside the listing (in the model; the source can also halt an in-place batch, see Left out) |
| TreeWalker.RunStaysHalted | decrypt.py:100-144 | once a file has raised, no later file is processed |
| TreeWalker.ProgressCalls | decrypt.py:108-109 | the callback receives (1, total), (2, total), ... one call per started file |
| TreeWalker.NatToString | decrypt.py:139-140 | a counter as an f-string prints it; stated by NatToStringDecimal |
| TreeWalker.NatToStringDecimal | decrypt.py:139-140 | a printed counter is a decimal numeral without leading zeros that reads back as the count |
| TreeWalker.ErrorText | decrypt.py:144 | `str(e)` for the four exceptions the model raises, as the aborted message embeds it |
| TreeWalker.BatchMessage | decrypt.py:139-144 | the finished, missing-directory and aborted messages; DecryptDirectory returns the message of the specification's outcome |
| TreeWalker.DecryptDirectorySpec | decrypt.py:90-144 | a missing directory is reported without touching files or progress; a finished batch counts every file once, with the mode-specific counter zero, and reports progress for all files; an aborted batch had an output directory (in the model; see Left out) and reported progress up to the failing file |
| TreeWalker.DecryptDirectoryAborted | decrypt.py:143-144 | a loop that halted at file k with an error ends the batch with that error, the files as they were left, and progress up to and including file k |
| TreeWalker.DecryptDirectoryFinished | decrypt.py:139-141 | a pass that tallies every file ends with those counters and the full progress |
| TreeWalker.ProcessFile | decrypt.py:111-137 | one iteration in place: the counter it reports or the exception it raises, and the files afterwards, are those of the step function |
| TreeWalker.DecryptDirectory | decrypt.py:90-144 | the boolean, the message, the progress calls and the files afterwards are those of DecryptDirectorySpec |

## Left out

- `run_gui.py`, `build_exe.py` and `main_cli` (argument parsing, console output, packaging) are not part of this model.
- PBKDF2-HMAC-SHA256 and the AES block function are not modelled. Both are parameters. The round trip assumes that AES decryption inverts AES encryption and that PBKDF2 returns the 32 bytes requested.
- Which wrong passwords happen to produce valid padding is not modelled, since it depends on the real AES. Every padding failure is the generic decryption failure.
- Directory enumeration (`glob('*')`, `rglob('*')`, `is_file()`) and the `recursive` flag are not modelled. The listing is given as relative paths, and `relpath` is assumed to give those paths back.
- pathlib's path normalisation is not modelled; for example, a root of `.` yields `a.enc` rather than `./a.enc`.
- `os.makedirs` is treated as succeeding without effect, because directories are fixed in the model. Its failures are not modelled.
- The uncaught `os.makedirs("")` at decrypt.py:69 is not modelled. It raises FileNotFoundError when the resolved output path has no directory part, and `decrypt_file` then raises instead of returning. In an in-place batch whose listing yields bare names (root `.` lists `a.enc`, which resolves to `a`), that exception aborts the whole batch at decrypt.py:143-144.
- TreeWalker.StepTallies, TreeWalker.RunHalts, TreeWalker.DecryptDirectorySpec: "an in-place batch never raises" holds of the model only; the source aborts such a batch in the `os.makedirs("")` case above.
- `shutil.copy2` copies contents only. Metadata is not modelled, and neither is copying into an existing directory.
- Partial writes (disk full) are not modelled; a write either succeeds whole or fails without changing the file.
- Exceptions raised by the progress callback, and concurrent changes to the filesystem, are not modelled.
- Paths.LowerAscii: `str.lower()` is modelled for ASCII letters only; other characters that lower to ASCII are not modelled.
- TreeWalker.ErrorText: `str(e)` is modelled for the four exceptions here only, with Python's quoting of simple paths.
- Paths.Basename, Paths.Dirname, Paths.Join, Paths.ResolveOutputPath: `os.path` is modelled as POSIX `posixpath` with `/` as the only separator. Under Windows `ntpath`, where `\` and `/` both separate, drive prefixes are kept and `join` inserts `\`, the paths differ: for example `C:/d/a.bin` resolves to `C:/d\a.bin.dec` there, not `C:/d/a.bin.dec`, and batch targets from decrypt.py:114 mix separators the same way.
- FileSystem.CopyFile: the model gives each file exactly one spelling, on every filesystem: two paths name the same file only when their strings are equal. In the source several spellings name one file even on Linux (`d/a.enc`, `./d/a.enc`, `d//a.enc`, `d/x/../a.enc`, a symbolic link and its target), and on a case-insensitive filesystem (Windows, default macOS) so do `a.enc` and `A.ENC`. `shutil.copy2` raises SameFileError for all of them through `os.path.samefile`; the model raises it only for identical strings, and its `Files` map keeps the spellings as separate files.
- FileDecryptor.DecryptFileSuccess: its clause for an output path different from the input compares strings, so it does not cover an output that respells the input. For `decrypt_file("d/a.enc", "./d/a.enc", keep_original=False)` the source writes the plaintext over the container and then removes it at decrypt.py:80-84, returning True with no plaintext left; the model keeps the plaintext at `./d/a.enc`. DecryptFileOntoItself covers the identical spelling only.
- TreeWalker.StepCopiesOthers: when the output directory respells the root (`photos` against `./photos`), the source's `shutil.copy2` at decrypt.py:125 raises SameFileError and the batch aborts at decrypt.py:143-144 with the file unchanged; the model counts the file as copied and, with keep_original false, removes it.
- KeyDerivation.EncodeChar, KeyDerivation.DeriveKey: a password is a string of Unicode scalar values. A Python string holding a lone surrogate (for example from surrogate-escaped command-line arguments) cannot be represented; for it `password.encode()` at decrypt.py:28 raises UnicodeEncodeError, which `decrypt_file` reports as the generic failure.
