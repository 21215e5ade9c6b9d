/**
 * The permalink: `updateHash` writes the family, the last trail node and,
 * right after a species choice, the species id as `fam` / `node` / `sp` in
 * the URL fragment; `restoreFromHash` reads them back with the same
 * urlencoded format.
 */
module Permalink {
  import opened Options
  import opened Trail
  import opened FormUrlencoded

  /** The tuples `updateHash(extra)` sets on a fresh URLSearchParams, in order. */
  function HashPairs(family: Option<string>, trail: seq<Step>, sp: Option<string>): (pairs: seq<Pair>)
    ensures Get(pairs, "fam") == (if Truthy(family) then family else None)
    ensures Get(pairs, "node") == (if trail != [] && trail[|trail| - 1].nodeId != ""
                                   then Some(trail[|trail| - 1].nodeId) else None)
    ensures Get(pairs, "sp") == (if Truthy(sp) then sp else None)
    ensures pairs == [] <==> !Truthy(family) && !Truthy(sp) && (trail == [] || trail[|trail| - 1].nodeId == "")
  {
    var pairs :=
      (if Truthy(family) then [("fam", family.value)] else [])
      + (if trail != [] && trail[|trail| - 1].nodeId != "" then [("node", trail[|trail| - 1].nodeId)] else [])
      + (if Truthy(sp) then [("sp", sp.value)] else []);
    GetSpec(pairs, "fam");
    GetSpec(pairs, "node");
    GetSpec(pairs, "sp");
    if Truthy(sp) then
      GetFirst(pairs, "sp", |pairs| - 1);
      pairs
    else pairs
  }

  /** The string `updateHash` assigns to `location.hash`. */
  function Fragment(family: Option<string>, trail: seq<Step>, sp: Option<string>): string {
    Serialize(HashPairs(family, trail, sp))
  }

  /** What `location.hash` reads back after the fragment was set: empty, or `#` and the fragment. */
  function HashValue(fragment: string): string {
    if fragment == "" then "" else "#" + fragment
  }

  /** `location.hash.replace(/^#/, "")`. */
  function StripHash(h: string): (r: string)
    ensures |r| <= |h|
  {
    if |h| > 0 && h[0] == '#' then h[1..] else h
  }

  /** A serialized fragment is empty exactly when there is nothing to write. */
  lemma SerializeEmpty(pairs: seq<Pair>)
    ensures Serialize(pairs) == "" <==> pairs == []
  {
    SerializeBytesAlphabet(pairs);
  }

  /**
   * Reading the fragment `updateHash` wrote gives back the family (when set),
   * the last trail node (when there is one) and the species id (when passed).
   */
  lemma FragmentRoundTrip(family: Option<string>, trail: seq<Step>, sp: Option<string>)
    ensures var h := StripHash(HashValue(Fragment(family, trail, sp)));
      var p := Parse(h);
      && (h == "" <==> HashPairs(family, trail, sp) == [])
      && Get(p, "fam") == (if Truthy(family) then family else None)
      && Get(p, "node") == (if trail != [] && trail[|trail| - 1].nodeId != ""
                            then Some(trail[|trail| - 1].nodeId) else None)
      && Get(p, "sp") == (if Truthy(sp) then sp else None)
  {
    var pairs := HashPairs(family, trail, sp);
    ParseSerialize(pairs);
    SerializeEmpty(pairs);
  }

  /**
   * A fragment uses no character that the fragment percent-encode set of the
   * URL Standard (section 1.3) names and does not start with `#`, so assigning
   * it to `location.hash` stores it unchanged.
   */
  lemma FragmentStoredVerbatim(family: Option<string>, trail: seq<Step>, sp: Option<string>)
    ensures var f := Fragment(family, trail, sp);
      (f != [] ==> f[0] != '#')
      && forall i :: 0 <= i < |f| ==>
        0x20 < f[i] as int < 0x7F && f[i] != '"' && f[i] != '<' && f[i] != '>' && f[i] != '`'
  {
    SerializeStoredVerbatim(HashPairs(family, trail, sp));
  }
}
