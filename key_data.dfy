/**
 * The data the traversal engine is loaded with: the family keys of
 * `keys_by_family.json` (one dichotomous key per botanical family) and the
 * species list of `species.json`, as records; and the two lookups over them,
 * the node table of a key and species lookup by id.
 */
module KeyData {
  import opened Options

  /** One answer of a node: a label and, when authored correctly, exactly one destination. */
  datatype KeyOption = KeyOption(labelText: Option<string>, next: Option<string>, speciesId: Option<string>)

  datatype Node = Node(id: string, prompt: Option<string>, options: seq<KeyOption>)

  /** The value stored under a family name; `root` and `nodes` may be missing in malformed data. */
  datatype FamilyKey = FamilyKey(family: Option<string>, root: Option<string>, nodes: Option<seq<Node>>)

  datatype Species = Species(
    id: string,
    scientificName: Option<string>,
    vernacularName: Option<string>,
    family: Option<string>,
    description: Option<string>)

  /** A key passes the guard of `loadFamily`: it has `nodes` and a non-empty `root`. */
  predicate Complete(k: FamilyKey) {
    k.nodes.Some? && Truthy(k.root)
  }

  /** The ids carried by `nodes`. */
  function Ids(nodes: seq<Node>): set<string> {
    set i | 0 <= i < |nodes| :: nodes[i].id
  }

  /** Each id maps to the last node that carries it. */
  ghost predicate LastWins(m: map<string, Node>, nodes: seq<Node>) {
    forall i :: 0 <= i < |nodes| && (forall j :: i < j < |nodes| ==> nodes[j].id != nodes[i].id)
                ==> nodes[i].id in m && m[nodes[i].id] == nodes[i]
  }

  /** `new Map(nodes.map(n => [n.id, n]))`: the node table, where a later node wins over an earlier one with the same id. */
  function BuildTable(nodes: seq<Node>): (m: map<string, Node>)
    ensures m.Keys == Ids(nodes)
    ensures LastWins(m, nodes)
  {
    if nodes == [] then map[]
    else
      var m := BuildTable(nodes[..|nodes| - 1]);
      IdsStep(nodes);
      LastWinsStep(nodes, m);
      m[nodes[|nodes| - 1].id := nodes[|nodes| - 1]]
  }

  lemma IdsStep(nodes: seq<Node>)
    requires nodes != []
    ensures Ids(nodes) == Ids(nodes[..|nodes| - 1]) + {nodes[|nodes| - 1].id}
  {
    var front := nodes[..|nodes| - 1];
    forall id | id in Ids(nodes) ensures id in Ids(front) + {nodes[|nodes| - 1].id} {
      var i :| 0 <= i < |nodes| && nodes[i].id == id;
      if i < |front| {
        assert front[i].id == id;
      }
    }
    forall id | id in Ids(front) ensures id in Ids(nodes) {
      var i :| 0 <= i < |front| && front[i].id == id;
      assert nodes[i].id == id;
    }
  }

  /** Adding the last node to the table of the others keeps "the last node with an id wins". */
  lemma LastWinsStep(nodes: seq<Node>, m: map<string, Node>)
    requires nodes != []
    requires LastWins(m, nodes[..|nodes| - 1])
    ensures var last := nodes[|nodes| - 1]; LastWins(m[last.id := last], nodes)
  {
    var front := nodes[..|nodes| - 1];
    var last := nodes[|nodes| - 1];
    var m' := m[last.id := last];
    forall i | 0 <= i < |nodes| && (forall j :: i < j < |nodes| ==> nodes[j].id != nodes[i].id)
      ensures nodes[i].id in m' && m'[nodes[i].id] == nodes[i]
    {
      if i < |front| {
        assert nodes[i].id != last.id;
        forall j | i < j < |front| ensures front[j].id != front[i].id {
          assert front[j] == nodes[j];
        }
        assert front[i] == nodes[i];
      }
    }
  }

  /** `SPECIES.find(s => s.id === id)`: the first species with that id, if any. */
  function FindSpecies(species: seq<Species>, id: string): (r: Option<Species>)
    ensures r.None? <==> forall i :: 0 <= i < |species| ==> species[i].id != id
    ensures r.Some? ==> exists i :: 0 <= i < |species| && species[i] == r.value && r.value.id == id
                          && forall j :: 0 <= j < i ==> species[j].id != id
  {
    if species == [] then None
    else if species[0].id == id then Some(species[0])
    else
      var r := FindSpecies(species[1..], id);
      if r.Some? then
        ghost var i :| 0 <= i < |species| - 1 && species[1..][i] == r.value && r.value.id == id
                        && forall j :: 0 <= j < i ==> species[1..][j].id != id;
        assert species[i + 1] == r.value;
        r
      else r
  }
}
