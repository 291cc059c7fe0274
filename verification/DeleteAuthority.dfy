/**
 The check that a persisted delete authority must pass before any artifact is deleted: which keys
 it can name, and that it can name nothing else.
 */
module DeleteAuthority {

  import opened UnicodeText
  import opened JsHeap

  const MAX_SAFE_INTEGER: int := 9007199254740991

  datatype Authority = Authority(epoch: int, fenceEtag: Text, candidateKeys: seq<Text>, tupleSha256: Text)

  datatype FencedHead = FencedHead(epoch: int, fenceEtag: Text, collectionPrefix: Text)

  const CHUNKS_STEM: Text := Codes("/_v2/snapshot/chunks/")
  const MANIFESTS_STEM: Text := Codes("/_v2/snapshot/manifests/")
  const DIGEST_STEM: Text := Codes("/sha256/")
  const JSON_ENDING: Text := Codes(".json")

  predicate IsHex(u: CodeUnit) {
    0x30 <= u <= 0x39 || 0x61 <= u <= 0x66
  }

  predicate AllHex(s: Text) {
    forall k :: 0 <= k < |s| ==> IsHex(s[k])
  }

  /** The stem, 32 hexadecimal digits, the digest stem, 64 hexadecimal digits and the ending. */
  predicate Matches(s: Text, stem: Text) {
    var n := |stem|;
    && |s| == n + 109 && s[..n] == stem
    && AllHex(s[n..n + 32]) && s[n + 32..n + 40] == DIGEST_STEM
    && AllHex(s[n + 40..n + 104]) && s[n + 104..] == JSON_ENDING
  }

  predicate IsArtifactSuffix(s: Text) {
    Matches(s, CHUNKS_STEM) || Matches(s, MANIFESTS_STEM)
  }

  /** Unpaired surrogates are the only surrogates that iteration by character yields. */
  predicate NoLoneSurrogates(s: Text)
    decreases |s|
  {
    s == [] ||
    (if IsLeading(s[0]) then |s| > 1 && IsTrailing(s[1]) && NoLoneSurrogates(s[2..])
     else !IsTrailing(s[0]) && NoLoneSurrogates(s[1..]))
  }

  predicate IsValidPrefix(prefix: Text) {
    && CleanPrefix(prefix) && NoLoneSurrogates(prefix)
    && (forall k :: 0 <= k < |prefix| ==> prefix[k] != 0x5C && prefix[k] > 0x1F && prefix[k] != 0x7F)
  }

  /** An artifact key of the collection. */
  predicate IsArtifactKey(prefix: Text, key: Text) {
    prefix <= key && IsArtifactSuffix(key[|prefix|..])
  }

  predicate Ascending(keys: seq<Text>) {
    forall i, j :: 0 <= i < j < |keys| ==> Less(keys[i], keys[j])
  }

  /** What an authority must be, with no reference to how it is checked. */
  ghost predicate Authorises(authority: Authority, head: FencedHead, sha256: (int, Text, seq<Text>) -> Text) {
    && 0 <= authority.epoch == head.epoch <= MAX_SAFE_INTEGER
    && authority.fenceEtag == head.fenceEtag != []
    && IsValidPrefix(head.collectionPrefix)
    && authority.candidateKeys != [] && Ascending(authority.candidateKeys)
    && (forall key :: key in authority.candidateKeys ==> IsArtifactKey(head.collectionPrefix, key))
    && |authority.tupleSha256| == 64 && AllHex(authority.tupleSha256)
    && sha256(authority.epoch, authority.fenceEtag, authority.candidateKeys) == authority.tupleSha256
  }

  function InsertUnique(key: Text, sorted: seq<Text>): (r: seq<Text>)
    ensures forall k :: k in r <==> k == key || k in sorted
  {
    if sorted == [] then [key]
    else
      assert sorted == [sorted[0]] + sorted[1..];
      if key == sorted[0] then sorted
      else if Less(key, sorted[0]) then [key] + sorted
      else [sorted[0]] + InsertUnique(key, sorted[1..])
  }

  /** The distinct keys, sorted. */
  function SortedUnique(keys: seq<Text>): (r: seq<Text>)
    ensures forall k :: k in r <==> k in keys
  {
    if keys == [] then []
    else
      assert keys == [keys[0]] + keys[1..];
      InsertUnique(keys[0], SortedUnique(keys[1..]))
  }

  lemma {:induction false} InsertKeepsAscending(key: Text, sorted: seq<Text>)
    requires Ascending(sorted)
    ensures Ascending(InsertUnique(key, sorted))
    decreases |sorted|
  {
    if sorted != [] && key != sorted[0] {
      LessIsTotal(key, sorted[0]);
      var r := InsertUnique(key, sorted);
      if Less(key, sorted[0]) {
        forall j | 0 < j < |r| ensures Less(key, r[j]) {
          if j > 1 {
            LessIsTransitive(key, sorted[0], sorted[j - 1]);
          }
        }
      } else {
        InsertKeepsAscending(key, sorted[1..]);
        forall j | 0 < j < |r| ensures Less(r[0], r[j]) {
          assert r[j] in InsertUnique(key, sorted[1..]);
        }
      }
    }
  }

  lemma {:induction false} SortedUniqueAscends(keys: seq<Text>)
    ensures Ascending(SortedUnique(keys))
    decreases |keys|
  {
    if keys != [] {
      SortedUniqueAscends(keys[1..]);
      InsertKeepsAscending(keys[0], SortedUnique(keys[1..]));
    }
  }

  lemma {:induction false} AscendingIsSorted(keys: seq<Text>)
    requires Ascending(keys)
    ensures SortedUnique(keys) == keys
    decreases |keys|
  {
    if keys != [] {
      AscendingIsSorted(keys[1..]);
      assert keys == [keys[0]] + keys[1..];
      if |keys| > 1 {
        LessIsTotal(keys[0], keys[1]);
      }
    }
  }

  method ValidatesArtifactDeleteAuthority(
      authority: Authority, head: FencedHead, sha256: (int, Text, seq<Text>) -> Text)
    returns (valid: bool)
    ensures valid <==> Authorises(authority, head, sha256)
  {
    if !(-MAX_SAFE_INTEGER <= authority.epoch <= MAX_SAFE_INTEGER) || authority.epoch < 0 ||
       authority.epoch != head.epoch || authority.fenceEtag != head.fenceEtag || |authority.fenceEtag| == 0 ||
       |authority.candidateKeys| == 0 || !IsValidPrefix(head.collectionPrefix) ||
       |authority.tupleSha256| != 64 || !AllHex(authority.tupleSha256) {
      return false;
    }
    var sortedUnique := SortedUnique(authority.candidateKeys);
    SortedUniqueAscends(authority.candidateKeys);
    if Ascending(authority.candidateKeys) {
      AscendingIsSorted(authority.candidateKeys);
    }
    if |sortedUnique| != |authority.candidateKeys| {
      return false;
    }
    for i := 0 to |sortedUnique|
      invariant sortedUnique[..i] == authority.candidateKeys[..i]
    {
      if sortedUnique[i] != authority.candidateKeys[i] {
        return false;
      }
      assert sortedUnique[..i + 1] == sortedUnique[..i] + [sortedUnique[i]];
    }
    assert sortedUnique[..|sortedUnique|] == sortedUnique;
    assert sortedUnique == authority.candidateKeys;
    for i := 0 to |sortedUnique|
      invariant forall k :: 0 <= k < i ==> IsArtifactKey(head.collectionPrefix, sortedUnique[k])
    {
      if !(head.collectionPrefix <= sortedUnique[i]) {
        assert authority.candidateKeys[i] in authority.candidateKeys;
        return false;
      }
      if !IsArtifactSuffix(sortedUnique[i][|head.collectionPrefix|..]) {
        assert authority.candidateKeys[i] in authority.candidateKeys;
        return false;
      }
    }
    valid := sha256(authority.epoch, authority.fenceEtag, authority.candidateKeys) == authority.tupleSha256;
  }

  // ---- What an accepted authority cannot name ------------------------------------------------------

  lemma StemFacts()
    ensures |CHUNKS_STEM| == 21 && |MANIFESTS_STEM| == 24 && |DIGEST_STEM| == 8 && |JSON_ENDING| == 5
    ensures CHUNKS_STEM[0] == SLASH && MANIFESTS_STEM[3] == 0x32
  {
  }

  /** Chunk and manifest keys differ in length, and a key cannot be read both ways. */
  lemma MarksInKey(p: Text, key: Text)
    requires IsArtifactKey(p, key)
    ensures (|key| == |p| + 130 && key[|p|] == SLASH) || (|key| == |p| + 133 && key[|p| + 3] == 0x32)
  {
    StemFacts();
    hide AllHex;
    var s := key[|p|..];
    if Matches(s, CHUNKS_STEM) {
      assert s[..21][0] == s[0] == key[|p|];
    } else {
      assert s[..24][3] == s[3] == key[|p| + 3];
    }
  }

  /** A key is an artifact of at most one collection. */
  lemma OneCollection(p: Text, q: Text, key: Text)
    requires IsArtifactKey(p, key) && IsArtifactKey(q, key)
    ensures p == q
  {
    MarksInKey(p, key);
    MarksInKey(q, key);
    assert p == key[..|p|] && q == key[..|q|];
  }

  const CURRENT_NAME: Text := Codes("/current.json")
  const PENDING_NAME: Text := Codes("/gc/pending.json")

  /** Never a head or a pending record, of this or of any other collection. */
  lemma NeverTheControlKeys(p: Text, q: Text, key: Text)
    requires IsArtifactKey(p, key)
    ensures key != q + CURRENT_NAME && key != q + PENDING_NAME
  {
    StemFacts();
    var s := key[|p|..];
    var n := |s| - 109;
    assert IsHex(s[n + 40..n + 104][63]);
    assert s[n + 103] == key[|key| - 6];
    assert "/current.json"[7] == 't' && "/gc/pending.json"[10] == 'g';
    assert CURRENT_NAME[7] == 0x74 && PENDING_NAME[10] == 0x67;
    assert (q + CURRENT_NAME)[|q| + 7] == 0x74 && (q + PENDING_NAME)[|q| + 10] == 0x67;
  }

  /** An accepted authority names each of its keys once, all of them artifacts of its own collection. */
  lemma NamesOnlyItsOwnArtifacts(
      authority: Authority, head: FencedHead, sha256: (int, Text, seq<Text>) -> Text, other: Text, key: Text)
    requires Authorises(authority, head, sha256) && key in authority.candidateKeys
    ensures multiset(authority.candidateKeys)[key] == 1
    ensures IsArtifactKey(other, key) ==> other == head.collectionPrefix
    ensures key != other + CURRENT_NAME && key != other + PENDING_NAME
  {
    if IsArtifactKey(other, key) {
      OneCollection(head.collectionPrefix, other, key);
    }
    NeverTheControlKeys(head.collectionPrefix, other, key);
    AscendingNamesOnce(authority.candidateKeys, key);
  }

  lemma {:induction false} AscendingNamesOnce(keys: seq<Text>, key: Text)
    requires Ascending(keys)
    ensures multiset(keys)[key] == if key in keys then 1 else 0
    decreases |keys|
  {
    if keys != [] {
      AscendingNamesOnce(keys[1..], key);
      assert keys == [keys[0]] + keys[1..];
      if key == keys[0] && key in keys[1..] {
        var i :| 0 <= i < |keys[1..]| && keys[1..][i] == key;
        LessIsTotal(keys[0], keys[1 + i]);
      }
    }
  }
}
