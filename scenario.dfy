/**
 * The scenario a game is loaded from: background, player, NPC roster and the
 * episodes with their scenes. It is read once and never changed.
 */
module Scenario {

  /** A scripted line, shown before or after a scene's conversation. */
  datatype Dialogue = Dialogue(speaker: string, text: string)

  /** An NPC persona. */
  datatype NpcDef = NpcDef(name: string, traits: string, backstory: string)

  /** A scene: only `npcs[0]` takes part in the conversation; `target` is the player's goal. */
  datatype Scene = Scene(
    sceneId: int,
    description: string,
    npcs: seq<string>,
    target: string,
    startDialogues: seq<Dialogue>,
    endDialogues: seq<Dialogue>)

  datatype Episode = Episode(episodeNumber: int, scenes: seq<Scene>)

  datatype Config = Config(background: string, playerName: string, npcs: seq<NpcDef>, episodes: seq<Episode>)

  /** Some NPC definition at index `i` is named `name`. */
  predicate NamedAt(defs: seq<NpcDef>, name: string, i: int)
  {
    0 <= i < |defs| && defs[i].name == name
  }

  /**
   * The NPC table `{npc.name: npc for npc in defs}`: later entries overwrite
   * earlier ones, and every persona is filed under its own name.
   */
  function NpcTable(defs: seq<NpcDef>): (table: map<string, NpcDef>)
    ensures forall name :: name in table ==> table[name].name == name
  {
    if defs == [] then map[]
    else NpcTable(defs[..|defs| - 1])[defs[|defs| - 1].name := defs[|defs| - 1]]
  }

  /**
   * A name is a key of the NPC table exactly when some definition carries
   * it, and it maps to the LAST definition with that name.
   */
  lemma {:induction false} NpcTableLookup(defs: seq<NpcDef>, name: string)
    ensures name in NpcTable(defs) <==> exists i :: NamedAt(defs, name, i)
    ensures name in NpcTable(defs) ==>
      exists i :: NamedAt(defs, name, i) && NpcTable(defs)[name] == defs[i] &&
        forall j :: i < j < |defs| ==> defs[j].name != name
  {
    if defs != [] {
      var init := defs[..|defs| - 1];
      var n := |defs| - 1;
      NpcTableLookup(init, name);
      assert forall i :: NamedAt(init, name, i) <==> NamedAt(defs, name, i) && i < n;
      if defs[n].name == name {
        assert NamedAt(defs, name, n);
      } else if name in NpcTable(defs) {
        var i :| NamedAt(init, name, i) && NpcTable(init)[name] == init[i] &&
          forall j :: i < j < |init| ==> init[j].name != name;
        assert NamedAt(defs, name, i) && NpcTable(defs)[name] == defs[i];
      }
    }
  }

  /** The scene can find its NPC: `npcs[0]` exists and is a key of the NPC table. */
  predicate HasCast(scene: Scene, table: map<string, NpcDef>)
  {
    |scene.npcs| > 0 && scene.npcs[0] in table
  }

  /**
   * What running the game demands of its scenario: at least one episode,
   * at least one scene in every episode, and an NPC for every scene.
   */
  predicate WellFormed(cfg: Config)
  {
    && |cfg.episodes| > 0
    && (forall e :: 0 <= e < |cfg.episodes| ==> |cfg.episodes[e].scenes| > 0)
    && (forall e, k :: 0 <= e < |cfg.episodes| && 0 <= k < |cfg.episodes[e].scenes| ==>
          HasCast(cfg.episodes[e].scenes[k], NpcTable(cfg.npcs)))
  }

  /** The number of scenes in all the episodes together. */
  function TotalScenes(eps: seq<Episode>): nat
  {
    if eps == [] then 0 else |eps[0].scenes| + TotalScenes(eps[1..])
  }
}
