/** The identifier forms under which a secret key's passphrase is filed:
    the fingerprint, its long and short key IDs (the low 64 and 32 bits of
    a V4 fingerprint, section 12.2 of RFC 4880, i.e. its last 16 and 8 hex
    digits), and every string of eight or more characters found in the
    subkey entries of the listed key, together with its last 8 characters. */
module KeyIds {
  import opened Engine

  /** Python's `s[-n:]` for a positive `n`: the tail of `s` whose length
      is the smaller of |s| and `n`. */
  function Suffix(s: string, n: nat): (r: string)
    requires 0 < n
    ensures |r| == if |s| < n then |s| else n
  {
    if |s| < n then s else s[|s| - n..]
  }

  /** `Suffix(s, n)` is the tail of `s` of that length. */
  lemma SuffixIsTail(s: string, n: nat)
    requires 0 < n
    ensures Suffix(s, n) == s[|s| - |Suffix(s, n)|..]
  {
  }

  /** Taking a shorter tail of a tail is taking that shorter tail directly. */
  lemma SuffixOfSuffix(s: string, m: nat, n: nat)
    requires 0 < m <= n
    ensures Suffix(Suffix(s, n), m) == Suffix(s, m)
  {
    if n <= |s| {
      var t := s[|s| - n..];
      if m <= |t| {
        assert t[|t| - m..] == s[|s| - m..];
      }
    }
  }

  /** The short key ID cut from the long key ID (pgp.py line 58) is the
      short key ID cut from the fingerprint. */
  lemma ShortIdOfLongId(fingerprint: string)
    ensures Suffix(Suffix(fingerprint, 16), 8) == Suffix(fingerprint, 8)
    ensures |fingerprint| == 40 ==>
              Suffix(fingerprint, 16) == fingerprint[24..] && Suffix(fingerprint, 8) == fingerprint[32..]
  {
    SuffixOfSuffix(fingerprint, 8, 16);
  }

  /** The identifiers one subkey entry contributes: a string of at least
      eight characters and its last eight characters; nothing otherwise. */
  function ValueIds(v: Value): (r: set<string>)
    ensures forall id :: id in r <==> AliasOf(v, id)
  {
    if v.Str? && |v.s| >= 8 then {v.s, Suffix(v.s, 8)} else {}
  }

  /** The identifiers of one subkey's entries, in the order the innermost
      loop visits them (pgp.py lines 64-67). */
  function EntryIds(entries: seq<Value>): set<string>
  {
    if entries == [] then {} else EntryIds(entries[..|entries| - 1]) + ValueIds(entries[|entries| - 1])
  }

  /** The identifiers of all subkeys of one key record (pgp.py line 63). */
  function SubkeyIds(subkeys: seq<seq<Value>>): set<string>
  {
    if subkeys == [] then {} else SubkeyIds(subkeys[..|subkeys| - 1]) + EntryIds(subkeys[|subkeys| - 1])
  }

  /** What one listed key contributes: its subkey identifiers when its
      key ID is `keyid` and it has a subkeys entry (pgp.py line 62). */
  function RecordIds(k: KeyRecord, keyid: string): set<string>
  {
    if k.keyid == keyid && k.subkeys.Some? then SubkeyIds(k.subkeys.value) else {}
  }

  /** What the whole key listing contributes (pgp.py line 61). */
  function ListedIds(keys: seq<KeyRecord>, keyid: string): set<string>
  {
    if keys == [] then {} else ListedIds(keys[..|keys| - 1], keyid) + RecordIds(keys[|keys| - 1], keyid)
  }

  /** The three forms cut from the fingerprint itself (pgp.py lines 54-58). */
  function PrimaryIds(fingerprint: string): set<string>
  {
    {fingerprint, Suffix(fingerprint, 16), Suffix(Suffix(fingerprint, 16), 8)}
  }

  /** Every identifier a successful secret-key import binds. */
  function Expand(fingerprint: string, keys: seq<KeyRecord>): (r: set<string>)
    ensures fingerprint in r && Suffix(fingerprint, 16) in r && Suffix(fingerprint, 8) in r
  {
    ShortIdOfLongId(fingerprint);
    PrimaryIds(fingerprint) + ListedIds(keys, Suffix(fingerprint, 16))
  }

  // ----- An independent description of the same sets -----

  /** `id` is what the registry files a passphrase under for value `v`. */
  predicate AliasOf(v: Value, id: string)
  {
    v.Str? && |v.s| >= 8 && (id == v.s || id == Suffix(v.s, 8))
  }

  ghost predicate InEntries(entries: seq<Value>, id: string)
  {
    exists k :: 0 <= k < |entries| && AliasOf(entries[k], id)
  }

  ghost predicate InSubkeys(subkeys: seq<seq<Value>>, id: string)
  {
    exists j, k :: 0 <= j < |subkeys| && 0 <= k < |subkeys[j]| && AliasOf(subkeys[j][k], id)
  }

  /** Some listed key with key ID `keyid` has a subkeys entry holding a
      value of which `id` is an alias. */
  ghost predicate InListing(keys: seq<KeyRecord>, keyid: string, id: string)
  {
    exists i, j, k ::
      0 <= i < |keys| && keys[i].keyid == keyid && keys[i].subkeys.Some? &&
      0 <= j < |keys[i].subkeys.value| && 0 <= k < |keys[i].subkeys.value[j]| &&
      AliasOf(keys[i].subkeys.value[j][k], id)
  }

  lemma {:induction false} EntryIdsIff(entries: seq<Value>, id: string)
    ensures id in EntryIds(entries) <==> InEntries(entries, id)
  {
    if entries != [] {
      var n := |entries| - 1;
      var init := entries[..n];
      EntryIdsIff(init, id);
      if InEntries(init, id) {
        var k :| 0 <= k < |init| && AliasOf(init[k], id);
        assert AliasOf(entries[k], id);
      }
      if InEntries(entries, id) {
        var k :| 0 <= k < |entries| && AliasOf(entries[k], id);
        if k < n {
          assert AliasOf(init[k], id);
        }
      }
      assert AliasOf(entries[n], id) <==> id in ValueIds(entries[n]);
    }
  }

  lemma {:induction false} SubkeyIdsIff(subkeys: seq<seq<Value>>, id: string)
    ensures id in SubkeyIds(subkeys) <==> InSubkeys(subkeys, id)
  {
    if subkeys != [] {
      var n := |subkeys| - 1;
      var init := subkeys[..n];
      SubkeyIdsIff(init, id);
      EntryIdsIff(subkeys[n], id);
      if InSubkeys(init, id) {
        var j, k :| 0 <= j < |init| && 0 <= k < |init[j]| && AliasOf(init[j][k], id);
        assert AliasOf(subkeys[j][k], id);
      }
      if InEntries(subkeys[n], id) {
        var k :| 0 <= k < |subkeys[n]| && AliasOf(subkeys[n][k], id);
        assert InSubkeys(subkeys, id);
      }
      if InSubkeys(subkeys, id) {
        var j, k :| 0 <= j < |subkeys| && 0 <= k < |subkeys[j]| && AliasOf(subkeys[j][k], id);
        if j < n {
          assert AliasOf(init[j][k], id);
        } else {
          assert InEntries(subkeys[n], id);
        }
      }
    }
  }

  /** The key `k` has key ID `keyid`, a subkeys entry, and in it a value
      of which `id` is an alias. */
  ghost predicate InRecord(k: KeyRecord, keyid: string, id: string)
  {
    k.keyid == keyid && k.subkeys.Some? && InSubkeys(k.subkeys.value, id)
  }

  /** A listing holds an alias exactly when its prefix does or its last key does. */
  lemma InListingSplit(keys: seq<KeyRecord>, keyid: string, id: string)
    requires keys != []
    ensures InListing(keys, keyid, id) <==>
              InListing(keys[..|keys| - 1], keyid, id) || InRecord(keys[|keys| - 1], keyid, id)
  {
    var n := |keys| - 1;
    var init := keys[..n];
    var last := keys[n];
    if InListing(init, keyid, id) {
      var i, j, k :| 0 <= i < |init| && init[i].keyid == keyid && init[i].subkeys.Some? &&
        0 <= j < |init[i].subkeys.value| && 0 <= k < |init[i].subkeys.value[j]| &&
        AliasOf(init[i].subkeys.value[j][k], id);
      assert keys[i] == init[i];
    }
    if InRecord(last, keyid, id) {
      var j, k :| 0 <= j < |last.subkeys.value| && 0 <= k < |last.subkeys.value[j]| &&
        AliasOf(last.subkeys.value[j][k], id);
      assert keys[n] == last;
    }
    if InListing(keys, keyid, id) {
      var i, j, k :| 0 <= i < |keys| && keys[i].keyid == keyid && keys[i].subkeys.Some? &&
        0 <= j < |keys[i].subkeys.value| && 0 <= k < |keys[i].subkeys.value[j]| &&
        AliasOf(keys[i].subkeys.value[j][k], id);
      if i < n {
        assert init[i] == keys[i];
      } else {
        assert InSubkeys(last.subkeys.value, id);
      }
    }
  }

  lemma {:induction false} ListedIdsIff(keys: seq<KeyRecord>, keyid: string, id: string)
    ensures id in ListedIds(keys, keyid) <==> InListing(keys, keyid, id)
  {
    if keys != [] {
      var last := keys[|keys| - 1];
      ListedIdsIff(keys[..|keys| - 1], keyid, id);
      InListingSplit(keys, keyid, id);
      if last.keyid == keyid && last.subkeys.Some? {
        SubkeyIdsIff(last.subkeys.value, id);
      }
    }
  }

  /** What `import_secret_key` binds, stated without the loops: the three
      fingerprint forms, and the aliases of the string entries of the
      subkeys of every listed key whose key ID is the long key ID. Entries
      that are not strings or are shorter than eight characters, and keys
      with another key ID or without subkeys, add nothing. */
  lemma ExpandIff(fingerprint: string, keys: seq<KeyRecord>, id: string)
    ensures id in Expand(fingerprint, keys) <==>
              id == fingerprint || id == Suffix(fingerprint, 16) || id == Suffix(fingerprint, 8) ||
              InListing(keys, Suffix(fingerprint, 16), id)
  {
    ShortIdOfLongId(fingerprint);
    ListedIdsIff(keys, Suffix(fingerprint, 16), id);
  }

  /** Every identifier taken from a subkey entry has at least eight
      characters, so each one passes the length check `decrypt_file`
      applies to a ciphertext's key ID; so do the fingerprint forms when
      the fingerprint itself has eight or more. */
  lemma ExpandIdsLongEnough(fingerprint: string, keys: seq<KeyRecord>, id: string)
    requires id in Expand(fingerprint, keys)
    requires |fingerprint| >= 8
    ensures |id| >= 8
  {
    ExpandIff(fingerprint, keys, id);
    if InListing(keys, Suffix(fingerprint, 16), id) {
      var i, j, k :| 0 <= i < |keys| && keys[i].keyid == Suffix(fingerprint, 16) && keys[i].subkeys.Some? &&
        0 <= j < |keys[i].subkeys.value| && 0 <= k < |keys[i].subkeys.value[j]| &&
        AliasOf(keys[i].subkeys.value[j][k], id);
    }
  }
}
