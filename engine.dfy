/** The answers the external OpenPGP engine (python-gnupg driving the gpg
    binary) gives to the key registry. The engine itself is not modelled:
    every answer it would give is handed to the registry as a value. */
module Engine {

  datatype Option<+T> = None | Some(value: T)

  /** A dynamically typed value as the engine returns it: a string, or
      anything else (None, an int, ...), kept only as the text Python's
      repr() would show for it. */
  datatype Value = Str(s: string) | Other(repr: string)

  /** One entry of `import_keys(...).results`: `ok` says whether the
      dictionary has an "ok" key; `fingerprint` is its "fingerprint" entry. */
  datatype ImportRecord = ImportRecord(ok: bool, fingerprint: string)

  /** The whole answer of `import_keys`: its result records and its stderr. */
  datatype ImportOutcome = ImportOutcome(results: seq<ImportRecord>, stderr: string)

  /** One record of `list_keys(secret=True)`: its "keyid" and, when the
      record has a "subkeys" entry, the list of subkey entries, each a list
      of values (ids, fingerprints, keygrips, flags, ...). */
  datatype KeyRecord = KeyRecord(keyid: string, subkeys: Option<seq<seq<Value>>>)

  /** The answer of `encrypt_file` / `decrypt_file`: its `ok` flag and stderr. */
  datatype EngineResult = EngineResult(ok: bool, stderr: string)
}
