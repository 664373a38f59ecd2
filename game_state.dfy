/**
 * The session state and its manager from server/game_state.py, as classes
 * whose methods update their fields in place. Each method is proved against
 * the value-level definitions of GameRecords; notifications to listeners are
 * no-ops here.
 */
module GameSession {
  import opened Wrappers
  import opened Seqs
  import opened GameRecords

  /** `GameState`: the session fields game_state.py reads and writes. */
  class GameState {
    const sessionId: string
    var currentTurn: int
    var activeCharacterId: Option<string>
    var characters: map<string, Character>
    /** The insertion order of `characters` (Python dicts iterate in it). */
    var characterOrder: seq<string>
    var players: map<string, Player>
    var actionHistory: seq<GameAction>
    var isCombat: bool
    var initiativeOrder: seq<string>
    var characterSheets: map<string, CharacterSheet>
    var availableMarkers: seq<int>
    var gameSystem: string

    /** `GameState(session_id=...)`, with the marker pool and game system the session starts from. */
    constructor(sessionId: string, availableMarkers: seq<int>, gameSystem: string)
      ensures this.sessionId == sessionId && currentTurn == 0 && activeCharacterId.None?
      ensures characters == map[] && characterOrder == [] && players == map[] && actionHistory == []
      ensures !isCombat && initiativeOrder == [] && characterSheets == map[]
      ensures this.availableMarkers == availableMarkers && this.gameSystem == gameSystem
    {
      this.sessionId := sessionId;
      currentTurn, activeCharacterId := 0, None;
      characters, characterOrder, players, actionHistory := map[], [], map[], [];
      isCombat, initiativeOrder, characterSheets := false, [], map[];
      this.availableMarkers, this.gameSystem := availableMarkers, gameSystem;
    }
  }

  class GameStateManager {
    const state: GameState
    var abilities: map<string, Ability>
    var templates: map<int, Template>
    /** character id -> ability id -> turns left. */
    var cooldowns: map<string, map<string, int>>

    /**
     * The session invariant: characters are keyed by id in a consistent order
     * with one per marker; the marker pool invariant holds; every stored
     * cooldown is positive.
     */
    ghost predicate Valid()
      reads this, state
    {
      CharsOk(state.characters, state.characterOrder) &&
      PoolOk(state.characterSheets, state.availableMarkers) &&
      CooldownsOk(cooldowns)
    }

    /** `GameStateManager()`, with the abilities and templates `_load_config` reads. */
    constructor(sessionId: string, abilities: map<string, Ability>, templates: map<int, Template>,
                availableMarkers: seq<int>, gameSystem: string)
      requires Distinct(availableMarkers)
      ensures Valid() && fresh(state)
      ensures this.abilities == abilities && this.templates == templates && cooldowns == map[]
      ensures state.characters == map[] && state.characterSheets == map[] && state.players == map[]
      ensures state.availableMarkers == availableMarkers && !state.isCombat
    {
      state := new GameState(sessionId, availableMarkers, gameSystem);
      this.abilities, this.templates, cooldowns := abilities, templates, map[];
    }

    // ------------------------------------------------------------ sheets

    /** `create_character_sheet`, with `sheetId` standing for the random id. */
    method CreateSheet(sheetId: string, playerId: string, playerName: string, data: SheetData)
      returns (sheet: CharacterSheet)
      requires Valid()
      modifies state`characterSheets
      ensures Valid()
      ensures sheet == NewSheet(sheetId, playerId, playerName, state.gameSystem, data)
      ensures state.characterSheets == old(state.characterSheets)[sheetId := sheet]
    {
      sheet := NewSheet(sheetId, playerId, playerName, state.gameSystem, data);
      PoolOkStore(state.characterSheets, state.availableMarkers, sheetId, sheet);
      state.characterSheets := state.characterSheets[sheetId := sheet];
    }

    /** `update_character_sheet`: the edited sheet, or none when refused. */
    method UpdateSheet(sheetId: string, data: SheetData, playerId: string) returns (r: Option<CharacterSheet>)
      requires Valid()
      modifies state`characterSheets
      ensures Valid()
      ensures r == if sheetId in old(state.characterSheets)
                   then Edited(old(state.characterSheets)[sheetId], state.players, data, playerId) else None
      ensures state.characterSheets == Stored(old(state.characterSheets), sheetId, r)
    {
      if sheetId !in state.characterSheets {
        return None;
      }
      r := Edited(state.characterSheets[sheetId], state.players, data, playerId);
      Save(sheetId, r);
    }

    /** `submit_character_sheet`. */
    method SubmitSheet(sheetId: string, playerId: string) returns (ok: bool)
      requires Valid()
      modifies state`characterSheets
      ensures Valid()
      ensures ok == OnSheet(old(state.characterSheets), sheetId, s => Submitted(s, playerId)).Some?
      ensures state.characterSheets ==
        Stored(old(state.characterSheets), sheetId, OnSheet(old(state.characterSheets), sheetId, s => Submitted(s, playerId)))
    {
      if sheetId !in state.characterSheets {
        return false;
      }
      var r := Submitted(state.characterSheets[sheetId], playerId);
      Save(sheetId, r);
      ok := r.Some?;
    }

    /** `approve_character_sheet`. */
    method ApproveSheet(sheetId: string) returns (ok: bool)
      requires Valid()
      modifies state`characterSheets
      ensures Valid()
      ensures ok == OnSheet(old(state.characterSheets), sheetId, Approval).Some?
      ensures state.characterSheets ==
        Stored(old(state.characterSheets), sheetId, OnSheet(old(state.characterSheets), sheetId, Approval))
    {
      if sheetId !in state.characterSheets {
        return false;
      }
      var r := Approval(state.characterSheets[sheetId]);
      Save(sheetId, r);
      ok := r.Some?;
    }

    /** `reject_character_sheet`. */
    method RejectSheet(sheetId: string, reason: string) returns (ok: bool)
      requires Valid()
      modifies state`characterSheets
      ensures Valid()
      ensures ok == OnSheet(old(state.characterSheets), sheetId, s => Rejection(s, reason)).Some?
      ensures state.characterSheets ==
        Stored(old(state.characterSheets), sheetId, OnSheet(old(state.characterSheets), sheetId, s => Rejection(s, reason)))
    {
      if sheetId !in state.characterSheets {
        return false;
      }
      var r := Rejection(state.characterSheets[sheetId], reason);
      Save(sheetId, r);
      ok := r.Some?;
    }

    /** Stores the outcome of an edit, submit, approve or reject: never a marker, never IN_GAME. */
    method Save(sheetId: string, r: Option<CharacterSheet>)
      requires Valid()
      requires r.Some? ==> r.value.markerId.None? && r.value.status != InGame
      modifies state`characterSheets
      ensures Valid()
      ensures state.characterSheets == Stored(old(state.characterSheets), sheetId, r)
    {
      if r.Some? {
        PoolOkStore(state.characterSheets, state.availableMarkers, sheetId, r.value);
        state.characterSheets := state.characterSheets[sheetId := r.value];
      }
    }

    /** `assign_token_to_sheet`: an APPROVED sheet takes a marker out of the pool and goes IN_GAME. */
    method AssignToken(sheetId: string, markerId: int, tokenVisual: Option<string>) returns (ok: bool)
      requires Valid()
      modifies state`characterSheets, state`availableMarkers
      ensures Valid()
      ensures ok == OnSheet(old(state.characterSheets), sheetId, s => Tokened(s, old(state.availableMarkers), markerId, tokenVisual)).Some?
      ensures state.characterSheets == Stored(old(state.characterSheets), sheetId,
        OnSheet(old(state.characterSheets), sheetId, s => Tokened(s, old(state.availableMarkers), markerId, tokenVisual)))
      ensures state.availableMarkers == if ok then RemoveFirst(old(state.availableMarkers), markerId)
                                        else old(state.availableMarkers)
    {
      if sheetId !in state.characterSheets {
        return false;
      }
      var r := Tokened(state.characterSheets[sheetId], state.availableMarkers, markerId, tokenVisual);
      if r.Some? {
        PoolOkToken(state.characterSheets, state.availableMarkers, sheetId, markerId, tokenVisual);
        state.characterSheets := state.characterSheets[sheetId := r.value];
        state.availableMarkers := RemoveFirst(state.availableMarkers, markerId);
      }
      ok := r.Some?;
    }

    // ----------------------------------------------------------- players

    /** `add_player`: the player, registered under its id (replacing any player with that id). */
    method AddPlayer(playerId: string, name: string, role: PlayerRole) returns (p: Player)
      requires Valid()
      modifies state`players
      ensures Valid()
      ensures p == Player(playerId, name, role, None, false)
      ensures state.players == old(state.players)[playerId := p]
    {
      p := Player(playerId, name, role, None, false);
      state.players := state.players[playerId := p];
    }

    /** `remove_player`: the player leaves and every character it owned is released. */
    method RemovePlayer(playerId: string)
      requires Valid()
      modifies state`players, state`characters
      ensures Valid()
      ensures playerId in old(state.players) ==>
        state.players == old(state.players) - {playerId} && state.characters == Released(old(state.characters), playerId)
      ensures playerId !in old(state.players) ==>
        state.players == old(state.players) && state.characters == old(state.characters)
    {
      if playerId !in state.players {
        return;
      }
      state.players := state.players - {playerId};
      var released := ReleaseOwned(state.characters, state.characterOrder, playerId);
      ReleasedSpec(state.characters, playerId);
      CharsOkRetouched(state.characters, released, state.characterOrder);
      state.characters := released;
    }

    /** The loop of `remove_player` over the characters, in insertion order. */
    static method ReleaseOwned(chars: map<string, Character>, order: seq<string>, playerId: string)
      returns (r: map<string, Character>)
      requires CharsOk(chars, order)
      ensures r == Released(chars, playerId)
    {
      KeysListed(chars, order);
      r := chars;
      var i := 0;
      while i < |order|
        invariant 0 <= i <= |order| && r.Keys == chars.Keys
        invariant forall j :: 0 <= j < i ==> r[order[j]] == Released(chars, playerId)[order[j]]
        invariant forall j :: i <= j < |order| ==> r[order[j]] == chars[order[j]]
      {
        var k := order[i];
        if r[k].ownerId == Some(playerId) {
          r := r[k := r[k].(ownerId := None)];
        }
        i := i + 1;
      }
      ReleasedByKeys(chars, r, order, playerId);
    }

    /**
     * `assign_character_to_player`: when both exist, the player and the
     * character are linked both ways, and another player that named the
     * character lets go of it (the unassignment the source's comment announces).
     */
    method AssignCharacterToPlayer(playerId: string, characterId: string) returns (ok: bool)
      requires Valid()
      modifies state`players, state`characters
      ensures Valid()
      ensures ok == (playerId in old(state.players) && characterId in old(state.characters))
      ensures ok ==> ((state.players, state.characters) ==
        AssignedToPlayer(old(state.players), old(state.characters), playerId, characterId))
      ensures !ok ==> state.characters == old(state.characters) && state.players == old(state.players)
      ensures Linked(old(state.players), old(state.characters)) ==> Linked(state.players, state.characters)
    {
      if playerId !in state.players || characterId !in state.characters {
        return false;
      }
      AssignedToPlayerSpec(state.players, state.characters, playerId, characterId);
      var c := state.characters[characterId];
      CharsOkUpdate(state.characters, state.characterOrder, characterId, c.(ownerId := Some(playerId)));
      var r := AssignedToPlayer(state.players, state.characters, playerId, characterId);
      state.players, state.characters := r.0, r.1;
      ok := true;
    }

    // -------------------------------------------------------- characters

    /** The search loop of `add_character_from_marker` and `remove_character_by_marker`. */
    method FindCharacter(markerId: int) returns (r: Option<string>)
      requires Valid()
      ensures r == FindByMarker(state.characters, state.characterOrder, markerId)
    {
      var i := 0;
      while i < |state.characterOrder|
        invariant 0 <= i <= |state.characterOrder|
        invariant FindByMarker(state.characters, state.characterOrder[i..], markerId) ==
          FindByMarker(state.characters, state.characterOrder, markerId)
      {
        var k := state.characterOrder[i];
        if k in state.characters && state.characters[k].markerId == markerId {
          return Some(k);
        }
        i := i + 1;
      }
      r := None;
    }

    /**
     * `add_character_from_marker`: moves the character that carries the marker,
     * or creates one from the marker's template, or gives none when there is no
     * template. `suffix` stands for the random hex part of the new id.
     */
    method AddCharacterFromMarker(markerId: int, position: Position, suffix: string) returns (r: Option<Character>)
      requires Valid()
      modifies state`characters, state`characterOrder, this`cooldowns
      ensures Valid()
      ensures FindByMarker(old(state.characters), old(state.characterOrder), markerId).Some? ==>
        var k := FindByMarker(old(state.characters), old(state.characterOrder), markerId).value;
        r == Some(old(state.characters)[k].(position := Some(position))) &&
        state.characters == old(state.characters)[k := r.value] &&
        state.characterOrder == old(state.characterOrder) && cooldowns == old(cooldowns)
      ensures FindByMarker(old(state.characters), old(state.characterOrder), markerId).None? && markerId !in templates ==>
        r.None? && state.characters == old(state.characters) && state.characterOrder == old(state.characterOrder) &&
        cooldowns == old(cooldowns)
      ensures FindByMarker(old(state.characters), old(state.characterOrder), markerId).None? && markerId in templates ==>
        var c := FromTemplate(CharacterId(markerId, suffix), markerId, templates[markerId], position);
        r == Some(c) && state.characters == old(state.characters)[c.id := c] &&
        state.characterOrder == (if c.id in old(state.characters) then old(state.characterOrder)
                                 else old(state.characterOrder) + [c.id]) &&
        cooldowns == old(cooldowns)[c.id := map[]]
    {
      FindByMarkerUnique(state.characters, state.characterOrder, markerId);
      var found := FindCharacter(markerId);
      if found.Some? {
        FindByMarkerSpec(state.characters, state.characterOrder, markerId);
        var c := MoveCharacter(found.value, position);
        return Some(c);
      }
      if markerId !in templates {
        return None;
      }
      var c := FromTemplate(CharacterId(markerId, suffix), markerId, templates[markerId], position);
      StoreNew(c);
      r := Some(c);
    }

    /** The marker's character, known to be the only one carrying it, moves to `position`. */
    method MoveCharacter(k: string, position: Position) returns (c: Character)
      requires Valid() && k in state.characters
      requires forall k2 :: k2 in state.characters && k2 != k ==> state.characters[k2].markerId != state.characters[k].markerId
      modifies state`characters
      ensures Valid()
      ensures c == old(state.characters)[k].(position := Some(position))
      ensures state.characters == old(state.characters)[k := c]
    {
      c := state.characters[k].(position := Some(position));
      CharsOkPut(state.characters, state.characterOrder, c);
      state.characters := state.characters[k := c];
    }

    /** Stores a new character whose marker no other character carries: listed last unless its id is taken, with no cooldowns. */
    method StoreNew(c: Character)
      requires Valid() && forall k :: k in state.characters ==> state.characters[k].markerId != c.markerId
      modifies state`characters, state`characterOrder, this`cooldowns
      ensures Valid()
      ensures state.characters == old(state.characters)[c.id := c]
      ensures state.characterOrder == (if c.id in old(state.characters) then old(state.characterOrder)
                                       else old(state.characterOrder) + [c.id])
      ensures cooldowns == old(cooldowns)[c.id := map[]]
    {
      CharsOkPut(state.characters, state.characterOrder, c);
      if c.id !in state.characters {
        state.characterOrder := state.characterOrder + [c.id];
      }
      state.characters := state.characters[c.id := c];
      CooldownsOkPut(cooldowns, c.id, map[]);
      cooldowns := cooldowns[c.id := map[]];
    }

    /** `remove_character_by_marker`: the character carrying the marker leaves, with its cooldowns. */
    method RemoveCharacterByMarker(markerId: int)
      requires Valid()
      modifies state`characters, state`characterOrder, this`cooldowns
      ensures Valid()
      ensures FindByMarker(old(state.characters), old(state.characterOrder), markerId).Some? ==>
        var k := FindByMarker(old(state.characters), old(state.characterOrder), markerId).value;
        state.characters == old(state.characters) - {k} && cooldowns == old(cooldowns) - {k} &&
        state.characterOrder == Without(old(state.characterOrder), {k})
      ensures FindByMarker(old(state.characters), old(state.characterOrder), markerId).None? ==>
        state.characters == old(state.characters) && state.characterOrder == old(state.characterOrder) &&
        cooldowns == old(cooldowns)
      ensures forall k :: k in state.characters ==> state.characters[k].markerId != markerId
    {
      FindByMarkerUnique(state.characters, state.characterOrder, markerId);
      var found := FindCharacter(markerId);
      if found.Some? {
        FindByMarkerSpec(state.characters, state.characterOrder, markerId);
        var k := found.value;
        CharsOkRemove(state.characters, state.characterOrder, k);
        state.characters := state.characters - {k};
        state.characterOrder := Without(state.characterOrder, {k});
        cooldowns := cooldowns - {k};
      }
    }

    // ------------------------------------------------------------ combat

    /** `start_combat`: turn 1, initiative in character insertion order, the first one active. */
    method StartCombat()
      requires Valid()
      modifies state`isCombat, state`currentTurn, state`initiativeOrder, state`activeCharacterId
      ensures Valid()
      ensures state.isCombat && state.currentTurn == 1 && state.initiativeOrder == state.characterOrder
      ensures state.activeCharacterId ==
        if state.characterOrder != [] then Some(state.characterOrder[0]) else old(state.activeCharacterId)
    {
      state.isCombat, state.currentTurn := true, 1;
      state.initiativeOrder := state.characterOrder;
      if state.initiativeOrder != [] {
        state.activeCharacterId := Some(state.initiativeOrder[0]);
      }
    }

    /** `end_combat`. */
    method EndCombat()
      requires Valid()
      modifies state`isCombat, state`initiativeOrder, state`activeCharacterId
      ensures Valid()
      ensures !state.isCombat && state.initiativeOrder == [] && state.activeCharacterId.None?
    {
      state.isCombat, state.initiativeOrder, state.activeCharacterId := false, [], None;
    }

    /**
     * `next_turn`: outside combat or with no initiative order nothing happens.
     * Otherwise the active character's cooldowns tick; then, if the active id
     * is in the order, the next character in the order becomes active and the
     * turn counter grows when the order wraps; if it is not, `list.index`
     * raises (`raised`) after the cooldowns have ticked.
     */
    method NextTurn() returns (raised: bool)
      requires Valid()
      modifies this`cooldowns, state`currentTurn, state`activeCharacterId
      ensures Valid()
      ensures !old(state.isCombat) || state.initiativeOrder == [] ==>
        !raised && cooldowns == old(cooldowns) && state.currentTurn == old(state.currentTurn) &&
        state.activeCharacterId == old(state.activeCharacterId)
      ensures old(state.isCombat) && state.initiativeOrder != [] ==>
        var a := old(state.activeCharacterId);
        cooldowns == (if a.Some? && a.value in old(cooldowns) then old(cooldowns)[a.value := Tick(old(cooldowns)[a.value])]
                      else old(cooldowns)) &&
        var idx := if a.Some? then IndexOf(state.initiativeOrder, a.value) else None;
        (raised <==> idx.None?) &&
        (idx.None? ==> state.currentTurn == old(state.currentTurn) && state.activeCharacterId == a) &&
        (idx.Some? ==> var next := Rotate(state.initiativeOrder, idx.value);
          state.activeCharacterId == Some(state.initiativeOrder[next.0]) &&
          state.currentTurn == old(state.currentTurn) + (if next.1 then 1 else 0))
    {
      if !state.isCombat || state.initiativeOrder == [] {
        return false;
      }
      var current := state.activeCharacterId;
      if current.Some? && current.value in cooldowns {
        TickCooldowns(current.value);
      }
      var idx := if current.Some? then IndexOf(state.initiativeOrder, current.value) else None;
      if idx.None? {
        return true;
      }
      var next := Rotate(state.initiativeOrder, idx.value);
      if next.1 {
        state.currentTurn := state.currentTurn + 1;
      }
      state.activeCharacterId := Some(state.initiativeOrder[next.0]);
      raised := false;
    }

    /** The cooldown loop of `next_turn` for one character. */
    method TickCooldowns(characterId: string)
      requires Valid() && characterId in cooldowns
      modifies this`cooldowns
      ensures Valid()
      ensures cooldowns == old(cooldowns)[characterId := Tick(old(cooldowns)[characterId])]
    {
      var cd0 := cooldowns[characterId];
      TickPartEnds(cd0);
      TickSpec(cd0);
      var cd, todo := cd0, cd0.Keys;
      while todo != {}
        invariant todo <= cd0.Keys && cd == TickPart(cd0, todo) && cooldowns == old(cooldowns)
        decreases todo
      {
        var a :| a in todo;
        TickPartStep(cd0, todo, a);
        var left := cd0[a] - 1;
        if left <= 0 {
          cd := cd - {a};
        } else {
          cd := cd[a := left];
        }
        todo := todo - {a};
      }
      assert cd == Tick(cd0);
      CooldownsOkPut(cooldowns, characterId, cd);
      cooldowns := cooldowns[characterId := cd];
    }

    // --------------------------------------------------------- abilities

    /**
     * `execute_ability`: refused with nothing changed on the first failing
     * check; otherwise mana is spent, damage and healing are applied, the
     * cooldown is stored and one action is recorded.
     */
    method ExecuteAbility(characterId: string, abilityId: string, targetId: Option<string>,
                          targetPosition: Option<Position>) returns (out: Outcome)
      requires Valid()
      modifies state`characters, state`actionHistory, this`cooldowns
      ensures Valid()
      ensures Check(old(state.characters), abilities, old(cooldowns), characterId, abilityId).Some? ==>
        out == Failed(Check(old(state.characters), abilities, old(cooldowns), characterId, abilityId).value) &&
        state.characters == old(state.characters) && cooldowns == old(cooldowns) &&
        state.actionHistory == old(state.actionHistory)
      ensures Check(old(state.characters), abilities, old(cooldowns), characterId, abilityId).None? ==>
        characterId in old(state.characters) && abilityId in abilities &&
        out == Success(Spent(old(state.characters), characterId, abilities[abilityId]), abilities[abilityId], abilityId, targetId) &&
        state.characters == Executed(old(state.characters), abilities[abilityId], characterId, targetId) &&
        cooldowns == Cooled(old(cooldowns), characterId, abilities[abilityId], abilityId) &&
        state.actionHistory == old(state.actionHistory) +
          [GameAction("ability", characterId, targetId, targetPosition, Some(abilityId), out)]
    {
      var failure := Check(state.characters, abilities, cooldowns, characterId, abilityId);
      if failure.Some? {
        return Failed(failure.value);
      }
      out := Perform(characterId, abilityId, targetId, targetPosition);
    }

    /**
     * The part of `execute_ability` after its checks: mana is spent, damage
     * and healing are applied, the cooldown is stored and one action is recorded.
     */
    method Perform(characterId: string, abilityId: string, targetId: Option<string>, targetPosition: Option<Position>)
      returns (out: Outcome)
      requires Valid() && characterId in state.characters && abilityId in abilities
      modifies state`characters, state`actionHistory, this`cooldowns
      ensures Valid()
      ensures out == Success(Spent(old(state.characters), characterId, abilities[abilityId]), abilities[abilityId],
                             abilityId, targetId)
      ensures state.characters == Executed(old(state.characters), abilities[abilityId], characterId, targetId)
      ensures cooldowns == Cooled(old(cooldowns), characterId, abilities[abilityId], abilityId)
      ensures state.actionHistory == old(state.actionHistory) +
        [GameAction("ability", characterId, targetId, targetPosition, Some(abilityId), out)]
    {
      var ability := abilities[abilityId];
      ghost var c0 := state.characters;
      var spent := Spent(state.characters, characterId, ability);
      out := Success(spent, ability, abilityId, targetId);
      ExecutedKeepsChars(c0, state.characterOrder, ability, characterId, targetId);
      CooledSpec(cooldowns, characterId, ability, abilityId);
      var chars := Healed(Damaged(spent, ability, targetId), ability, targetId, characterId);
      var cds := Cooled(cooldowns, characterId, ability, abilityId);
      assert chars == Executed(c0, ability, characterId, targetId);
      state.characters := chars;
      cooldowns := cds;
      state.actionHistory := state.actionHistory + [GameAction("ability", characterId, targetId, targetPosition, Some(abilityId), out)];
    }

    /** `get_available_abilities`: one entry per known ability the character lists, in its order. */
    method AvailableAbilities(characterId: string) returns (infos: seq<AbilityInfo>)
      requires Valid()
      ensures characterId !in state.characters ==> infos == []
      ensures characterId in state.characters ==>
        infos == Available(state.characters[characterId], abilities, cooldowns, characterId,
                           state.characters[characterId].abilities)
    {
      if characterId !in state.characters {
        return [];
      }
      var c := state.characters[characterId];
      infos := [];
      var i := 0;
      while i < |c.abilities|
        invariant 0 <= i <= |c.abilities|
        invariant infos == Available(c, abilities, cooldowns, characterId, c.abilities[..i])
      {
        assert c.abilities[..i + 1][..i] == c.abilities[..i];
        var a := c.abilities[i];
        if a in abilities {
          infos := infos + [Info(c, abilities[a], cooldowns, characterId, a)];
        }
        i := i + 1;
      }
      assert c.abilities[..i] == c.abilities;
    }
  }

  lemma KeysListed(chars: map<string, Character>, order: seq<string>)
    requires CharsOk(chars, order)
    ensures forall j :: 0 <= j < |order| ==> order[j] in chars
  {
    forall j | 0 <= j < |order| ensures order[j] in chars {
      var k := order[j];
      assert k in order;
    }
  }

  /** A map whose every key, visited in order, got released is the released map. */
  lemma ReleasedByKeys(chars: map<string, Character>, released: map<string, Character>, order: seq<string>,
                       playerId: string)
    requires CharsOk(chars, order) && released.Keys == chars.Keys
    requires forall j :: 0 <= j < |order| ==> released[order[j]] == Released(chars, playerId)[order[j]]
    ensures released == Released(chars, playerId)
  {
    forall k | k in chars ensures released[k] == Released(chars, playerId)[k] {
      assert k in order;
      var j :| 0 <= j < |order| && order[j] == k;
    }
  }
}
