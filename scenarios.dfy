/** Worked runs of the engine on a two-node key of the family Rosaceae. */
module Scenarios {
  import opened Options
  import opened KeyData
  import opened Trail
  import opened App

  const Rose: Species := Species("sp1", Some("Rosa canina"), None, Some("Rosaceae"), None)

  /** Node n1 asks one question: "Yes" leads to n2, "No" names species sp1. */
  function RosaceaeKeys(): map<string, FamilyKey> {
    map["Rosaceae" := FamilyKey(Some("Rosaceae"), Some("n1"), Some([
      Node("n1", Some("Leaves simple?"), [
        KeyOption(Some("Yes"), Some("n2"), None),
        KeyOption(Some("No"), None, Some("sp1"))]),
      Node("n2", Some("..."), [])]))]
  }

  /**
   * Entering Rosaceae and answering "No" at n1: the trail stays at n1 with
   * "No" recorded, the species card is sp1 and the fragment names it.
   */
  method ChooseSpeciesAtRoot() returns (trail: seq<Step>, shown: Option<Species>, written: Option<string>)
    ensures trail == [Step("n1", Some("No"))]
    ensures shown == Some(Rose)
    ensures written == Some(Permalink.Fragment(Some("Rosaceae"), trail, Some("sp1")))
  {
    var keys := RosaceaeKeys();
    var key := keys["Rosaceae"];
    var nodes := key.nodes.value;
    assert Complete(key);
    assert nodes[0].id == "n1";
    assert "n1" in Ids(nodes);
    var e := new Engine(keys, [Rose]);
    var notice, w := e.LoadFamily("Rosaceae");
    assert e.family == Some("Rosaceae");
    assert "n1" in e.table;
    assert e.trail == [Step("n1", None)];
    var choice := KeyOption(Some("No"), None, Some("sp1"));
    assert !Truthy(choice.next) && Truthy(choice.speciesId);
    notice, shown, written := e.HandleOption(choice);
    assert e.trail == Annotated([Step("n1", None)], "No");
    assert FindSpecies([Rose], "sp1") == Some(Rose);
    trail := e.trail;
  }

  /**
   * A permalink naming `constructor`, which every object inherits: the lookup
   * is truthy, so the key is present but has neither `root` nor `nodes`. The
   * family is reported, nothing is loaded, and the species is still shown.
   */
  method InheritedFamilyName() returns (notice: Option<Notice>, shown: Option<Species>, cleared: bool)
    ensures notice == Some(KeyMissingOrIncomplete("constructor"))
    ensures shown == Some(Rose) && cleared
  {
    var keys := RosaceaeKeys()["constructor" := FamilyKey(None, None, None)];
    var e := new Engine(keys, [Rose]);
    var w;
    assert FindSpecies([Rose], "sp1") == Some(Rose);
    notice, shown, w := e.RestoreParams(Some("constructor"), None, Some("sp1"));
    cleared := e.IsCleared();
  }

  /** A family absent from the data is reported and the engine is left as it was. */
  method MissingFamily() returns (notice: Option<Notice>, cleared: bool)
    ensures notice == Some(KeyMissingOrIncomplete("Ghost")) && cleared
  {
    var e := new Engine(RosaceaeKeys(), [Rose]);
    var w;
    notice, w := e.LoadFamily("Ghost");
    cleared := e.IsCleared();
  }
}
