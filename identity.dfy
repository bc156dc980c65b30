/** Identity derivation: which field of an entry names it, and the
    identifier derived from that field (update_feeds.py, `get_id`). */
module Identity {
  import opened Feed

  predicate IsHexChar(c: char) {
    '0' <= c <= '9' || 'a' <= c <= 'f'
  }

  /** What a SHA-256 `hexdigest()` looks like: 64 lower-case hex digits. */
  predicate IsHexDigest(s: string) {
    |s| == 64 && forall k :: 0 <= k < |s| ==> IsHexChar(s[k])
  }

  /** `hash` behaves like `sha256(...).hexdigest()` as far as its output
      format goes; nothing else about it is required. */
  ghost predicate HexDigests(hash: string -> string) {
    forall s :: IsHexDigest(hash(s))
  }

  /** Python truthiness of an optional string: present and non-empty. */
  predicate Truthy(v: Option<string>) {
    v.Some? && v.value != ""
  }

  /** The value of the first truthy option of `vs`, or "" when there is none. */
  function FirstTruthy(vs: seq<Option<string>>): (r: string)
    ensures r == "" <==> forall k :: 0 <= k < |vs| ==> !Truthy(vs[k])
    ensures r != "" ==> exists k :: 0 <= k < |vs| && Truthy(vs[k]) && vs[k].value == r
                                   && forall j :: 0 <= j < k ==> !Truthy(vs[j])
  {
    if vs == [] then ""
    else if Truthy(vs[0]) then vs[0].value
    else
      var r := FirstTruthy(vs[1..]);
      assert forall k :: 1 <= k < |vs| ==> vs[k] == vs[1..][k - 1];
      r
  }

  /** The string an entry is hashed by:
      `entry.get("id") or entry.get("link") or entry.get("title", "")`.
      The last operand is returned as it is, truthy or not. */
  function IdentityKey(e: Entry): string {
    if Truthy(e.id) then e.id.value
    else if Truthy(e.link) then e.link.value
    else e.title.GetOr("")
  }

  /** The identifier of an entry: the digest of its identity key. */
  function Uid(e: Entry, hash: string -> string): string {
    hash(IdentityKey(e))
  }

  /** The key is the first truthy value among id, link and title, or ""
      when none is; an empty value counts as falsy and falls through. */
  lemma IdentityKeyIsFirstTruthy(e: Entry)
    ensures IdentityKey(e) == FirstTruthy([e.id, e.link, e.title])
  {
    var vs := [e.id, e.link, e.title];
    if !Truthy(e.id) {
      assert FirstTruthy(vs) == FirstTruthy([e.link, e.title]) by { assert vs[1..] == [e.link, e.title]; }
      if !Truthy(e.link) {
        assert FirstTruthy([e.link, e.title]) == FirstTruthy([e.title]) by {
          assert [e.link, e.title][1..] == [e.title];
        }
        assert FirstTruthy([e.title]) == (if Truthy(e.title) then e.title.value else FirstTruthy([])) by {
          assert [e.title][1..] == [];
        }
      }
    }
  }

  /** An entry with a truthy id is named by it, whatever its link and title. */
  lemma IdDecides(e1: Entry, e2: Entry, hash: string -> string)
    requires Truthy(e1.id) && e1.id == e2.id
    ensures Uid(e1, hash) == Uid(e2, hash)
  {
  }

  /** An identifier is a digest when the hash gives digests. */
  lemma UidIsDigest(e: Entry, hash: string -> string)
    requires HexDigests(hash)
    ensures IsHexDigest(Uid(e, hash))
  {
  }

  /** The key is empty only when no field is truthy. */
  lemma EmptyKeyOnlyForAnonymous(e: Entry)
    ensures IdentityKey(e) == "" ==> !Truthy(e.id) && !Truthy(e.link) && !Truthy(e.title)
  {
  }

  /** Entries with equal keys get equal identifiers, in every run. */
  lemma SameKeySameUid(e1: Entry, e2: Entry, hash: string -> string)
    requires IdentityKey(e1) == IdentityKey(e2)
    ensures Uid(e1, hash) == Uid(e2, hash)
  {
  }

  /** Entries without a truthy id, link or title all share the digest of "". */
  lemma AnonymousEntriesCollide(e: Entry, hash: string -> string)
    requires !Truthy(e.id) && !Truthy(e.link) && !Truthy(e.title)
    ensures Uid(e, hash) == hash("")
  {
  }
}
