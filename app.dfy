/**
 * The traversal engine: the mutable `current` record of the page (selected
 * family, its key, the node table and the breadcrumb trail) and the
 * operations the page runs on it. DOM output is reduced to what it reports:
 * the message written to the status line, the species card shown, and the
 * fragment assigned to `location.hash`.
 */
module App {
  import opened Options
  import opened KeyData
  import opened Trail
  import opened FormUrlencoded
  import Permalink

  /** The messages the engine writes to the status line. */
  datatype Notice =
    | KeyMissingOrIncomplete(family: string)
    | NodeNotFound(nodeId: string)
    | SpeciesNotFound(speciesId: string)
    | OptionWithoutDestination

  /** The trail `loadFamily` leaves: the root alone, or nothing when the root is not a node of the table. */
  function RootTrail(table: map<string, Node>, root: string): seq<Step> {
    if root in table then [Step(root, None)] else []
  }

  class Engine {
    /** `KEYS_BY_FAMILY` and `SPECIES`, fixed once the two data files are loaded. */
    const keys: map<string, FamilyKey>
    const species: seq<Species>

    var family: Option<string>
    var key: Option<FamilyKey>
    var table: map<string, Node>
    var trail: seq<Step>

    /**
     * The trail has no consecutive repeats, only named steps and only nodes of
     * the table; without a family everything is empty, and with one the table
     * is built from that family's complete key.
     */
    ghost predicate Valid()
      reads this
    {
      && NoRepeats(trail) && Within(trail, table) && NamedSteps(trail)
      && match family
         case None => key.None? && table == map[] && trail == []
         case Some(f) =>
           && f != "" && f in keys && Complete(keys[f]) && key == Some(keys[f])
           && table == BuildTable(keys[f].nodes.value)
    }

    /** `current` at start-up and after `resetAll`. */
    predicate IsCleared()
      reads this
    {
      family.None? && key.None? && table == map[] && trail == []
    }

    /** What `updateHash(extra)` assigns to `location.hash` in the current state. */
    function Fragment(sp: Option<string>): string
      reads this
    {
      Permalink.Fragment(family, trail, sp)
    }

    constructor(keys: map<string, FamilyKey>, species: seq<Species>)
      ensures this.keys == keys && this.species == species
      ensures IsCleared() && Valid()
    {
      this.keys := keys;
      this.species := species;
      family, key, table, trail := None, None, map[], [];
    }

    /** `pushToTrail`. */
    method PushToTrail(step: Step)
      modifies this`trail
      ensures trail == Pushed(old(trail), step)
    {
      if |trail| > 0 && trail[|trail| - 1].nodeId == step.nodeId {
        return;
      }
      trail := trail + [step];
    }

    /** The trail side of `renderNode`: an unknown id is reported, a known one entered. */
    method RenderNode(nodeId: string) returns (notice: Option<Notice>)
      requires Valid() && nodeId != ""
      modifies this`trail
      ensures Valid()
      ensures nodeId in table ==> trail == Pushed(old(trail), Step(nodeId, None)) && notice.None?
      ensures nodeId !in table ==> trail == old(trail) && notice == Some(NodeNotFound(nodeId))
    {
      if nodeId !in table {
        return Some(NodeNotFound(nodeId));
      }
      PushedKeepsInvariants(trail, Step(nodeId, None), table);
      PushToTrail(Step(nodeId, None));
      notice := None;
    }

    /**
     * The effect of `loadFamily(name)`: a missing or incomplete key changes
     * nothing; otherwise the family, key and table are replaced and the root
     * entered on an empty trail, even when the root is not among the nodes.
     */
    twostate predicate LoadedFamily(name: string, new notice: Option<Notice>, new written: Option<string>)
      reads this
    {
      if name in keys && Complete(keys[name]) then
        var k := keys[name];
        && family == Some(name) && key == Some(k)
        && table == BuildTable(k.nodes.value)
        && trail == RootTrail(table, k.root.value)
        && notice == (if k.root.value in table then None else Some(NodeNotFound(k.root.value)))
        && written == Some(Fragment(None))
      else
        && family == old(family) && key == old(key) && table == old(table) && trail == old(trail)
        && notice == Some(KeyMissingOrIncomplete(name)) && written.None?
    }

    method LoadFamily(name: string) returns (notice: Option<Notice>, written: Option<string>)
      requires Valid() && name != ""
      modifies this`family, this`key, this`table, this`trail
      ensures Valid()
      ensures LoadedFamily(name, notice, written)
    {
      if name !in keys || keys[name].nodes.None? || !Truthy(keys[name].root) {
        return Some(KeyMissingOrIncomplete(name)), None;
      }
      var k := keys[name];
      family := Some(name);
      key := Some(k);
      table := BuildTable(k.nodes.value);
      trail := [];
      notice := RenderNode(k.root.value);
      written := Some(Fragment(None));
    }

    /**
     * `handleOption(opt)`: the last step records the option's label (or "")
     * first, whatever follows; then `next` is entered, or else the species
     * is shown, or else a warning is reported.
     */
    method HandleOption(opt: KeyOption) returns (notice: Option<Notice>, shown: Option<Species>, written: Option<string>)
      requires Valid()
      modifies this`trail
      ensures Valid()
      ensures var marked := Annotated(old(trail), opt.labelText.GetOr(""));
        if Truthy(opt.next) then
          var next := opt.next.value;
          && trail == (if next in table then Pushed(marked, Step(next, None)) else marked)
          && notice == (if next in table then None else Some(NodeNotFound(next)))
          && shown.None? && written == Some(Fragment(None))
        else if Truthy(opt.speciesId) then
          var id := opt.speciesId.value;
          && trail == marked && shown == FindSpecies(species, id)
          && notice == (if shown.None? then Some(SpeciesNotFound(id)) else None)
          && written == Some(Fragment(opt.speciesId))
        else
          && trail == marked && shown.None? && notice == Some(OptionWithoutDestination)
          && written.None?
    {
      notice, shown, written := None, None, None;
      ghost var marked := Annotated(trail, opt.labelText.GetOr(""));
      AnnotatedKeepsInvariants(trail, opt.labelText.GetOr(""), table);
      if |trail| > 0 {
        trail := trail[|trail| - 1 := trail[|trail| - 1].(chosen := Some(opt.labelText.GetOr("")))];
      }
      assert trail == marked;
      if Truthy(opt.next) {
        notice := RenderNode(opt.next.value);
        written := Some(Fragment(None));
        return;
      }
      if Truthy(opt.speciesId) {
        shown := FindSpecies(species, opt.speciesId.value);
        if shown.None? {
          notice := Some(SpeciesNotFound(opt.speciesId.value));
        }
        written := Some(Fragment(opt.speciesId));
        return;
      }
      notice := Some(OptionWithoutDestination);
    }

    /**
     * A click on breadcrumb `idx`: the trail is cut to its first `idx` steps
     * and that step's node entered again, which drops every later step and
     * the label chosen at `idx`.
     */
    method Backtrack(idx: nat) returns (notice: Option<Notice>, written: Option<string>)
      requires Valid() && idx < |trail|
      modifies this`trail
      ensures Valid()
      ensures trail == old(trail[..idx]) + [Step(old(trail[idx].nodeId), None)]
      ensures |trail| == idx + 1
      ensures notice.None? && written == Some(Fragment(None))
    {
      var step := trail[idx];
      BacktrackShape(trail, idx);
      trail := trail[..idx];
      notice := RenderNode(step.nodeId);
      written := Some(Fragment(None));
    }

    /** `resetAll`. */
    method ResetAll() returns (written: Option<string>)
      modifies this`family, this`key, this`table, this`trail
      ensures IsCleared() && Valid()
      ensures written == Some("")
    {
      family, key, table, trail := None, None, map[], [];
      written := Some(Fragment(None));
      Permalink.SerializeEmpty([]);
    }

    /** `onFamilyChange`: the empty selection resets, any other loads that family. */
    method OnFamilyChange(value: string) returns (notice: Option<Notice>, written: Option<string>)
      requires Valid()
      modifies this`family, this`key, this`table, this`trail
      ensures Valid()
      ensures value == "" ==> IsCleared() && notice.None? && written == Some("")
      ensures value != "" ==> LoadedFamily(value, notice, written)
    {
      if value == "" {
        notice := None;
        written := ResetAll();
        return;
      }
      notice, written := LoadFamily(value);
    }

    /**
     * The effect of `restoreFromHash` once `fam`, `node` and `sp` are read:
     * nothing happens unless `fam` names a key of the data. Then that
     * family is loaded (a no-op for an incomplete key), `node` is entered on
     * an empty trail when the table has it, and `sp` is looked up. The
     * fragment written back is the one `loadFamily` writes: the family and
     * its entry trail, not the restored node nor the species.
     */
    twostate predicate Restored(new fam: Option<string>, new node: Option<string>, new sp: Option<string>,
                                new notice: Option<Notice>, new shown: Option<Species>, new written: Option<string>)
      reads this
    {
      if !Truthy(fam) || fam.value !in keys then
        && family == old(family) && key == old(key) && table == old(table) && trail == old(trail)
        && notice.None? && shown.None? && written.None?
      else
        var f := fam.value;
        var loads := Complete(keys[f]);
        && family == (if loads then fam else old(family))
        && key == (if loads then Some(keys[f]) else old(key))
        && table == (if loads then BuildTable(keys[f].nodes.value) else old(table))
        && trail == (if Truthy(node) && node.value in table then [Step(node.value, None)]
                     else if loads then RootTrail(table, keys[f].root.value)
                     else old(trail))
        && shown == (if Truthy(sp) then FindSpecies(species, sp.value) else None)
        && notice == (if Truthy(sp) && shown.None? then Some(SpeciesNotFound(sp.value))
                      else if !loads then Some(KeyMissingOrIncomplete(f))
                      else if keys[f].root.value !in table then Some(NodeNotFound(keys[f].root.value))
                      else None)
        && written == (if loads then Some(Permalink.Fragment(fam, RootTrail(table, keys[f].root.value), None))
                       else None)
    }

    /** The "soft" reconstruction of `restoreFromHash`: the trail emptied, then the node entered. */
    method EnterAlone(nodeId: string)
      requires Valid() && nodeId != "" && nodeId in table
      modifies this`trail
      ensures Valid()
      ensures trail == [Step(nodeId, None)]
    {
      trail := [];
      var _ := RenderNode(nodeId);
    }

    /** The part of `restoreFromHash` after the three parameters are read. */
    method RestoreParams(fam: Option<string>, node: Option<string>, sp: Option<string>)
      returns (notice: Option<Notice>, shown: Option<Species>, written: Option<string>)
      requires Valid()
      modifies this`family, this`key, this`table, this`trail
      ensures Valid()
      ensures Restored(fam, node, sp, notice, shown, written)
    {
      notice, shown, written := None, None, None;
      if !Truthy(fam) || fam.value !in keys {
        return;
      }
      notice, written := LoadFamily(fam.value);
      if Truthy(node) && node.value in table {
        EnterAlone(node.value);
      }
      if Truthy(sp) {
        shown := FindSpecies(species, sp.value);
        if shown.None? {
          notice := Some(SpeciesNotFound(sp.value));
        }
      }
    }

    /**
     * `restoreFromHash` given the value of `location.hash`: an empty hash
     * changes nothing; otherwise it is parsed and `fam`, `node` and `sp` read
     * with `get`.
     */
    method RestoreFromHash(hash: string) returns (notice: Option<Notice>, shown: Option<Species>, written: Option<string>)
      requires Valid()
      modifies this`family, this`key, this`table, this`trail
      ensures Valid()
      ensures Permalink.StripHash(hash) == "" ==>
        && family == old(family) && key == old(key) && table == old(table) && trail == old(trail)
        && notice.None? && shown.None? && written.None?
      ensures var p := Parse(Permalink.StripHash(hash));
        Permalink.StripHash(hash) != "" ==>
        Restored(Get(p, "fam"), Get(p, "node"), Get(p, "sp"), notice, shown, written)
    {
      notice, shown, written := None, None, None;
      var h := Permalink.StripHash(hash);
      if h == "" {
        return;
      }
      var p := Parse(h);
      notice, shown, written := RestoreParams(Get(p, "fam"), Get(p, "node"), Get(p, "sp"));
    }
  }

  /**
   * Reloading the page at the fragment of an engine's current state: a fresh
   * engine over the same data, restored from that fragment, has the same family and
   * table and stands at the same node, with that node as its whole trail.
   */
  method Reopen(e: Engine, sp: Option<string>) returns (r: Engine, shown: Option<Species>)
    requires e.Valid()
    ensures r.keys == e.keys && r.species == e.species
    ensures r.family == e.family && r.key == e.key && r.table == e.table
    ensures r.trail == if e.trail != [] then [Step(e.trail[|e.trail| - 1].nodeId, None)]
                       else if e.family.Some? then RootTrail(e.table, e.keys[e.family.value].root.value)
                       else []
    ensures shown == if e.family.Some? && Truthy(sp) then FindSpecies(e.species, sp.value) else None
  {
    var fragment := e.Fragment(sp);
    Permalink.FragmentRoundTrip(e.family, e.trail, sp);
    r := new Engine(e.keys, e.species);
    var notice, written;
    notice, shown, written := r.RestoreFromHash(Permalink.HashValue(fragment));
  }
}
