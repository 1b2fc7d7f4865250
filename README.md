# pgpcrypto key registry, in Dafny

`PgpWrapper` (pgpcrypto/pgp.py) wraps an OpenPGP engine: python-gnupg driving
the gpg binary. It adds a small registry on top of that engine:

- a **default recipient**. This is the label that `encrypt_file` uses when the
  caller names no recipient. The first public-key import sets it. A later import
  replaces it only when it passes `default=True`.
- a **passphrase map** from key identifiers to passphrases. `import_secret_key`
  files the passphrase under several identifiers:
  - the fingerprint;
  - its long key ID (the last 16 characters);
  - its short key ID (the last 8 characters);
  - every string of eight or more characters in the subkey entries of the listed
    key whose key ID is the long key ID, together with each such string's last 8
    characters.

  These are the low 64 and 32 bits of a V4 fingerprint (section 12.2 of RFC 4880).
- a **decryption policy**. `decrypt_file` reads only the *first* key ID that the
  engine reports for a ciphertext. It checks that this ID is a string of at least
  eight characters, and it needs a non-empty passphrase filed under that ID. It
  never falls back to a later key ID.

The model has three modules:

- `Engine` (engine.dfy) holds the engine's answers as values: import results, the
  key listing, the ciphertext's recipient list, and encrypt/decrypt results.
- `KeyIds` (keyids.dfy) defines the identifier forms:
  - `Suffix` models Python's `s[-n:]`.
  - Recursive functions follow the three nested loops of `import_secret_key`.
  - Lemmas prove these functions equal an independent existential description:
    "some listed key with this key ID has a subkey entry of which `id` is an
    alias".
- `Pgp` (pgp.dfy) holds the class `PgpWrapper` and its state. It has three fields:
  - `defaultRecipient`;
  - `passphraseByKeyId`;
  - `keyIdByRecipient`, which is declared and never written.

  Each method takes the engine's answers as parameters. The encrypt and decrypt
  engine is a function. It is applied to the recipient that encryption targets
  and to the passphrase that decryption uses, so the contracts say which value
  the engine receives. Beside the class are the pure functions that specify it:
  `Bind`, `NextDefault`/`DefaultAfter` and `DecryptPassphrase`. Lemmas about them
  state the registry's promises.

`import_secret_key` runs a triple-nested loop, at pgp.py lines 61-67. Here it is
one method per loop level: `BindListing`, `BindSubkeys` and `BindEntries`. Each
method is proved against the matching recursive identifier function.

## Model

| member | source | states |
|---|---|---|
| `KeyIds.Suffix` | pgpcrypto/pgp.py:54 | `s[-n:]` has length equal to the smaller of `|s|` and `n` |
| `KeyIds.SuffixIsTail` | pgpcrypto/pgp.py:54 | `s[-n:]` is the tail of `s` of that length |
| `KeyIds.SuffixOfSuffix` | pgpcrypto/pgp.py:54-58 | taking the last `m` characters of the last `n` (`m <= n`) gives the last `m` characters of the string |
| `KeyIds.ShortIdOfLongId` | pgpcrypto/pgp.py:54-58 | `keyid[-8:]` with `keyid = fingerprint[-16:]` is `fingerprint[-8:]`; for a 40-character fingerprint these are characters 24.. and 32.. |
| `KeyIds.ValueIds` | pgpcrypto/pgp.py:65-67 | one subkey entry contributes exactly its aliases: the entry and its last 8 characters when it is a string of length >= 8, nothing otherwise |
| `KeyIds.EntryIds` | pgpcrypto/pgp.py:64-67 | the identifiers the loop over one subkey's entries writes; characterised by `EntryIdsIff` |
| `KeyIds.SubkeyIds` | pgpcrypto/pgp.py:63-67 | the identifiers the loop over one key's subkeys writes; characterised by `SubkeyIdsIff` |
| `KeyIds.ListedIds` | pgpcrypto/pgp.py:60-67 | the identifiers the loop over the listing writes; characterised by `ListedIdsIff` |
| `KeyIds.Expand` | pgpcrypto/pgp.py:54-67 | every identifier a secret import binds; it always holds the fingerprint, `fingerprint[-16:]` and `fingerprint[-8:]`, and `ExpandIff` gives the whole set |
| `KeyIds.EntryIdsIff` | pgpcrypto/pgp.py:64-67 | the inner loop binds `id` exactly when some entry is a string of length >= 8 that equals `id`, or whose last 8 characters equal `id` |
| `KeyIds.SubkeyIdsIff` | pgpcrypto/pgp.py:63-67 | the loop over subkeys binds `id` exactly when some entry of some subkey is such a string for `id` |
| `KeyIds.ListedIdsIff` | pgpcrypto/pgp.py:60-67 | the loop over the listing binds `id` exactly when a listed key with key ID `keyid` has a subkeys entry holding such a string; keys with another key ID or without subkeys add nothing |
| `KeyIds.ExpandIff` | pgpcrypto/pgp.py:54-67 | a secret import binds `id` exactly when it is the fingerprint, `fingerprint[-16:]`, `fingerprint[-8:]`, or an alias of a subkey string of the listed key whose key ID is `fingerprint[-16:]` |
| `KeyIds.ExpandIdsLongEnough` | pgpcrypto/pgp.py:64-67 | every identifier bound for a fingerprint of at least 8 characters has at least 8 characters, so it passes decrypt's length check |
| `Pgp.FirstImport` | pgpcrypto/pgp.py:39-43 | the import succeeds exactly when the first result record carries "ok", and the fingerprint is then that record's; otherwise ImportError with "Unable to import public/secret PGP key: " + stderr, or IndexError when there is no record |
| `Pgp.NextDefault` | pgpcrypto/pgp.py:45-46 | one import leaves either the old default or the new label; `default=True` always installs the label; a non-empty label never leaves the default empty. `DefaultKeptWithoutRequest`, `FirstImportWins` and `LastRequestWins` characterise a series of imports |
| `Pgp.DefaultAfter` | pgpcrypto/pgp.py:45-46 | after a series of imports the default is the starting one or the label of one of the imports |
| `Pgp.DefaultKeptWithoutRequest` | pgpcrypto/pgp.py:45-46 | a default that is already set survives any series of imports that do not pass `default=True` |
| `Pgp.FirstImportWins` | pgpcrypto/pgp.py:45-46 | starting with no default, after imports that never pass `default=True` the default is the first import's label |
| `Pgp.LastRequestWins` | pgpcrypto/pgp.py:45-46 | the default is the label of the last import that passed `default=True`, whatever came before it or after it |
| `Pgp.DefaultSetAfterImport` | pgpcrypto/pgp.py:38-46 | after at least one import of non-empty labels the default recipient is non-empty |
| `Pgp.Bind` | pgpcrypto/pgp.py:56-58 | binding a set of identifiers gives the union of the domains: those identifiers go to the passphrase, every other entry is kept |
| `Pgp.BindStringEntry` | pgpcrypto/pgp.py:65-67 | filing under `v` and then under `v[-8:]` binds exactly the identifiers that entry contributes |
| `Pgp.SecretImportBindings` | pgpcrypto/pgp.py:54-67 | after a secret import each of the forms of `ExpandIff` maps to the passphrase; every other identifier keeps its old presence and value |
| `Pgp.ReimportIdempotent` | pgpcrypto/pgp.py:56-67 | re-importing with the same listing adds no identifier, and with the same passphrase leaves the map unchanged |
| `Pgp.Get` | pgpcrypto/pgp.py:99 | `dict.get(id, "")`: the bound passphrase when `id` is a key, "" otherwise |
| `Pgp.ListRepr` | pgpcrypto/pgp.py:101-103 | the `{keyids}` text of the "no passphrase" message is a bracketed list, as Python's repr of a list |
| `Pgp.RecipientKeyId` | pgpcrypto/pgp.py:89-98 | a key ID is accepted exactly when the recipient list is non-empty and its first element is a string of at least 8 characters; it is that string |
| `Pgp.DecryptPassphrase` | pgpcrypto/pgp.py:89-103 | a passphrase is found exactly when the first key ID is accepted and maps to a non-empty passphrase, which is the one returned; every error is a ValueError starting "Unable to decrypt file " |
| `Pgp.OnlyFirstKeyIdConsulted` | pgpcrypto/pgp.py:89-103 | two recipient lists with the same first element find the same passphrase, or both find none |
| `Pgp.NoFallbackToLaterKeyIds` | pgpcrypto/pgp.py:99-103 | a list whose first key ID has no passphrase fails even when the second one has a passphrase |
| `Pgp.DecryptAfterSecretImport` | pgpcrypto/pgp.py:99-103 | after a secret import, a ciphertext whose first key ID is any bound identifier gets exactly that passphrase; with an empty passphrase it fails |
| `Pgp.GetKeys` | pgpcrypto/pgp.py:69-70 | `get_keys` is the public listing followed by the secret listing, with both kept whole |
| `Pgp.CountKeys` | pgpcrypto/pgp.py:69-73 | the count is the length of the public listing plus the length of the secret listing |
| `Pgp.PgpWrapper.constructor` | pgpcrypto/pgp.py:28-33 | the registry starts with an empty default recipient and two empty maps |
| `Pgp.PgpWrapper.ImportPublicKey` | pgpcrypto/pgp.py:35-46 | requires a non-empty label and key. On a failed import it raises and leaves the default unchanged, with no trust call. On success it trusts the fingerprint and sets the default to the label exactly when `default` is true or there is no default yet. The passphrase map is untouched. |
| `Pgp.PgpWrapper.ImportSecretKey` | pgpcrypto/pgp.py:48-67 | on a failed import it raises before any trust call and leaves the map unchanged. On success it trusts the fingerprint and the new map is the old map with every identifier of `Expand` bound to the passphrase. The default recipient is untouched. |
| `Pgp.PgpWrapper.BindListing` | pgpcrypto/pgp.py:60-67 | the loop over the listing binds exactly `ListedIds` and keeps every other entry |
| `Pgp.PgpWrapper.BindSubkeys` | pgpcrypto/pgp.py:63-67 | the loop over one key's subkeys binds exactly `SubkeyIds` |
| `Pgp.PgpWrapper.BindEntries` | pgpcrypto/pgp.py:64-67 | the loop over one subkey's entries binds exactly `EntryIds` |
| `Pgp.PgpWrapper.EncryptFile` | pgpcrypto/pgp.py:75-86 | the engine is given the explicit recipient if non-empty, else the default; success exactly when the engine succeeds, returning its result; else ValueError "Unable to encrypt file: " + the engine's stderr; any text in that stderr, such as "bad_key_id", is in the error message |
| `Pgp.PgpWrapper.DecryptFile` | pgpcrypto/pgp.py:88-111 | succeeds exactly when the first key ID is a string of at least 8 characters with a non-empty passphrase and the engine succeeds with that passphrase; every error is a ValueError starting "Unable to decrypt file" |
| `Pgp.EncryptErrorNamesRecipient` | pgpcrypto/pgp.py:84-85 | whatever the engine's stderr contains, such as an unknown recipient "bad_key_id", the encryption error message contains too |
| `Pgp.ExampleSession` | examples/lambda_function.py:50-89 | the serverless example run: import "Test User" as default, encrypt to the default, import the secret key with "Passphrase12345", decrypt a ciphertext naming "75188ED1". Encryption targets "Test User", and decryption uses "Passphrase12345" whenever the fingerprint ends in "75188ED1". |

## Left out

- The engine calls themselves are not modelled: `import_keys`, `trust_keys`, `list_keys`, `encrypt_file`, `decrypt_file` and `get_recipients_file` call the gpg binary. Their answers are parameters. The trust call appears only as the `trusted` out-parameter, which is the fingerprint handed to it. The cryptographic round trip and the ASCII armor are not modelled.
- The constructor's `gnupghome` and `gpgbinary` arguments, the directory creation and the `chmod` (pgp.py lines 20-26) are file-system and process set-up. They are not modelled.
- `Pgp.ValueRepr`: the `{keyids}` in the "no passphrase" message uses Python's `repr`. The model writes strings in single quotes without Python's quote escaping. Non-string values appear as the repr text they carry.
- `Pgp.RecipientKeyId`: the model does not evaluate `not keyids[0]` for a non-string value. The `isinstance` test that follows rejects such a value with the same error in every case.
- `KeyIds.Suffix` covers only positive `n`. The source uses only 8 and 16.
- `keyIdByRecipient` is declared and never written by the source. The model keeps the field and no method changes it.
- The import methods return `None` in the source. The serverless example stores that return value as if it were an identifier set. The model returns only the outcome and the trusted fingerprint.
- `get_keys` is modelled as the concatenation of the two listings. Only its length matters to `count_keys`.
- `import_secret_key` accepts an empty passphrase. No identifier bound with it can then decrypt, because of the check at pgp.py:100 (`DecryptAfterSecretImport`).
- `encrypt_file` with neither a recipient nor a default does not raise by itself. It hands "" to the engine (pgp.py:80).
- Every encrypt and decrypt failure is a `ValueError` (pgp.py:85, 96-103, 111).
- tests/test_pgp.py calls a constructor with four positional arguments and a one-argument `decrypt_file`. The current code has neither. The file is used only for its scenario values.
- examples/lambda_function_multiple_recipients.py and tests/lambda.py read secrets, files and temporary directories. They are not part of this model.
