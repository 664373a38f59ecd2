/**
 * Value-level view of server/game_state.py: the records the session keeps
 * (players, characters, abilities, character sheets, actions), the sheet
 * lifecycle, the marker pool, the combat rotation and the ability rules.
 * The manager class in game_state.dfy is proved against these definitions.
 *
 * server/models.py does not declare `CharacterSheet`, `CharacterStatus` or
 * the session's `character_sheets`, `available_markers` and `game_system`;
 * they are declared here from the way game_state.py uses them.
 */
module GameRecords {
  import opened Wrappers
  import opened Seqs
  import opened Strings

  datatype PlayerRole = RolePlayer | RoleGm | RoleSpectator

  datatype Player = Player(id: string, name: string, role: PlayerRole, characterId: Option<string>, isReady: bool)

  datatype Position = Position(x: real, y: real, rotation: real)

  datatype Character = Character(
    id: string,
    markerId: int,
    name: string,
    characterClass: string,
    hp: int,
    maxHp: int,
    mana: int,
    maxMana: int,
    armor: int,
    speed: int,
    abilities: seq<string>,
    statusEffects: seq<string>,
    position: Option<Position>,
    ownerId: Option<string>,
    isVisible: bool)

  datatype Ability = Ability(id: string, name: string, description: string, damage: int, heal: int, range: int,
                             aoe: int, cooldown: int, manaCost: int)

  datatype CharacterStatus = Draft | Pending | Approved | Rejected | InGame

  /** The free-form sheet contents (a JSON object), keyed by field name. */
  type SheetData = map<string, string>

  datatype CharacterSheet = CharacterSheet(
    id: string,
    playerId: string,
    playerName: string,
    gameSystem: string,
    data: SheetData,
    status: CharacterStatus,
    rejectionReason: Option<string>,
    markerId: Option<int>,
    tokenVisual: Option<string>)

  /** A character template of characters.json: every key may be missing. */
  datatype Template = Template(
    name: Option<string>,
    characterClass: Option<string>,
    hp: Option<int>,
    maxHp: Option<int>,
    mana: Option<int>,
    maxMana: Option<int>,
    armor: Option<int>,
    speed: Option<int>,
    abilities: Option<seq<string>>)

  /** Why `execute_ability` refused, in the order it checks. */
  datatype Failure = UnknownCharacter | UnknownAbility | NotOwned | OnCooldown(turnsLeft: int) | InsufficientMana

  /** An `ActionResult` without its display message. */
  datatype Outcome = Failed(why: Failure) | Succeeded(damageDealt: int, healingDone: int, cooldownStarted: Option<string>)

  datatype GameAction = GameAction(actionType: string, source: string, target: Option<string>,
                                   targetPosition: Option<Position>, abilityId: Option<string>, result: Outcome)

  // ---------------------------------------------------------------- sheets

  /** The lifecycle a sheet may follow: DRAFT -> PENDING -> APPROVED/REJECTED, REJECTED -> PENDING,
      APPROVED -> IN_GAME, and any editable sheet back to DRAFT. */
  predicate Step(a: CharacterStatus, b: CharacterStatus) {
    a == b ||
    (a != InGame && b == Draft) ||
    ((a == Draft || a == Rejected) && b == Pending) ||
    (a == Pending && (b == Approved || b == Rejected)) ||
    (a == Approved && b == InGame)
  }

  /** The owner may edit a sheet, and so may any player registered as GM. */
  predicate MayEdit(sheet: CharacterSheet, players: map<string, Player>, playerId: string) {
    sheet.playerId == playerId || (playerId in players && players[playerId].role == RoleGm)
  }

  /** The sheets after an operation on sheet `id` that succeeded with `r` or refused. */
  function Stored(sheets: map<string, CharacterSheet>, id: string, r: Option<CharacterSheet>)
    : map<string, CharacterSheet>
  {
    if r.Some? then sheets[id := r.value] else sheets
  }

  /** An operation on one sheet, looked up by id: an unknown id refuses. */
  function OnSheet(sheets: map<string, CharacterSheet>, id: string, op: CharacterSheet -> Option<CharacterSheet>)
    : Option<CharacterSheet>
  {
    if id in sheets then op(sheets[id]) else None
  }

  /** `create_character_sheet`: a new DRAFT sheet. */
  function NewSheet(id: string, playerId: string, playerName: string, gameSystem: string, data: SheetData)
    : CharacterSheet
  {
    CharacterSheet(id, playerId, playerName, gameSystem, data, Draft, None, None, None)
  }

  /** `update_character_sheet` on one sheet. */
  function Edited(sheet: CharacterSheet, players: map<string, Player>, data: SheetData, playerId: string)
    : Option<CharacterSheet>
  {
    if !MayEdit(sheet, players, playerId) || sheet.status == InGame then None
    else Some(sheet.(data := data, status := Draft))
  }

  /** `submit_character_sheet` on one sheet. */
  function Submitted(sheet: CharacterSheet, playerId: string): Option<CharacterSheet> {
    if sheet.playerId != playerId || !(sheet.status == Draft || sheet.status == Rejected) then None
    else Some(sheet.(status := Pending))
  }

  /** `approve_character_sheet` on one sheet. */
  function Approval(sheet: CharacterSheet): Option<CharacterSheet> {
    if sheet.status != Pending then None else Some(sheet.(status := Approved, rejectionReason := None))
  }

  /** `reject_character_sheet` on one sheet. */
  function Rejection(sheet: CharacterSheet, reason: string): Option<CharacterSheet> {
    if sheet.status != Pending then None else Some(sheet.(status := Rejected, rejectionReason := Some(reason)))
  }

  /** `assign_token_to_sheet` on one sheet, given the marker pool. */
  function Tokened(sheet: CharacterSheet, pool: seq<int>, markerId: int, tokenVisual: Option<string>)
    : Option<CharacterSheet>
  {
    if sheet.status != Approved || markerId !in pool then None
    else Some(sheet.(markerId := Some(markerId), tokenVisual := tokenVisual, status := InGame))
  }

  /** Each sheet operation succeeds exactly under the source's conditions. */
  lemma SheetGuards(sheet: CharacterSheet, players: map<string, Player>, data: SheetData, playerId: string,
                    reason: string, pool: seq<int>, markerId: int, tokenVisual: Option<string>)
    ensures Edited(sheet, players, data, playerId).Some? <==> MayEdit(sheet, players, playerId) && sheet.status != InGame
    ensures Submitted(sheet, playerId).Some? <==>
      sheet.playerId == playerId && (sheet.status == Draft || sheet.status == Rejected)
    ensures Approval(sheet).Some? <==> sheet.status == Pending
    ensures Rejection(sheet, reason).Some? <==> sheet.status == Pending
    ensures Tokened(sheet, pool, markerId, tokenVisual).Some? <==> sheet.status == Approved && markerId in pool
  {
  }

  /**
   * Every successful sheet operation moves the sheet one step along the
   * lifecycle, and an IN_GAME sheet is never changed.
   */
  lemma SheetSteps(sheet: CharacterSheet, players: map<string, Player>, data: SheetData, playerId: string,
                   reason: string, pool: seq<int>, markerId: int, tokenVisual: Option<string>)
    ensures Edited(sheet, players, data, playerId).Some? ==> Step(sheet.status, Edited(sheet, players, data, playerId).value.status)
    ensures Submitted(sheet, playerId).Some? ==> Step(sheet.status, Submitted(sheet, playerId).value.status)
    ensures Approval(sheet).Some? ==> Step(sheet.status, Approval(sheet).value.status)
    ensures Rejection(sheet, reason).Some? ==> Step(sheet.status, Rejection(sheet, reason).value.status)
    ensures Tokened(sheet, pool, markerId, tokenVisual).Some? ==>
      Step(sheet.status, Tokened(sheet, pool, markerId, tokenVisual).value.status) &&
      Tokened(sheet, pool, markerId, tokenVisual).value.markerId == Some(markerId)
    ensures sheet.status == InGame ==>
      Edited(sheet, players, data, playerId).None? && Submitted(sheet, playerId).None? &&
      Approval(sheet).None? && Rejection(sheet, reason).None? && Tokened(sheet, pool, markerId, tokenVisual).None?
  {
  }

  /** Only the IN_GAME state is final: no step leaves it. */
  lemma InGameIsFinal(b: CharacterStatus)
    ensures Step(InGame, b) <==> b == InGame
  {
  }

  /**
   * The marker pool invariant: the pool has no repeats; a sheet holds a marker
   * exactly when it is IN_GAME; no marker is held by two sheets; and no marker
   * held by a sheet is still in the pool.
   */
  ghost predicate PoolOk(sheets: map<string, CharacterSheet>, pool: seq<int>) {
    Distinct(pool) &&
    (forall k :: k in sheets ==> (sheets[k].markerId.Some? <==> sheets[k].status == InGame)) &&
    (forall k :: k in sheets && sheets[k].markerId.Some? ==> sheets[k].markerId.value !in pool) &&
    (forall k1, k2 :: k1 in sheets && k2 in sheets && k1 != k2 && sheets[k1].markerId.Some? ==>
      sheets[k1].markerId != sheets[k2].markerId)
  }

  /** `list.remove(m)` on a pool with no repeats removes `m` and nothing else. */
  lemma RemoveFirstPool(pool: seq<int>, m: int)
    requires Distinct(pool)
    ensures Distinct(RemoveFirst(pool, m))
    ensures forall x :: x in RemoveFirst(pool, m) <==> x in pool && x != m
  {
    RemoveFirstWithout(pool, {}, m);
    WithoutNothing(pool);
    assert {} + {m} == {m};
    WithoutDistinct(pool, {m});
    forall x ensures x in RemoveFirst(pool, m) <==> x in pool && x != m {
      WithoutMember(pool, {m}, x);
    }
  }

  /** Storing a sheet without a marker outside IN_GAME keeps the pool invariant. */
  lemma PoolOkStore(sheets: map<string, CharacterSheet>, pool: seq<int>, id: string, s: CharacterSheet)
    requires PoolOk(sheets, pool) && s.markerId.None? && s.status != InGame
    ensures PoolOk(sheets[id := s], pool)
  {
  }

  /**
   * Assigning a token keeps the pool invariant: the marker leaves the pool and
   * is held by exactly one sheet, so no marker is ever assigned twice.
   */
  lemma PoolOkToken(sheets: map<string, CharacterSheet>, pool: seq<int>, id: string, markerId: int,
                    tokenVisual: Option<string>)
    requires PoolOk(sheets, pool) && id in sheets && Tokened(sheets[id], pool, markerId, tokenVisual).Some?
    ensures PoolOk(sheets[id := Tokened(sheets[id], pool, markerId, tokenVisual).value], RemoveFirst(pool, markerId))
    ensures markerId !in RemoveFirst(pool, markerId)
  {
    RemoveFirstPool(pool, markerId);
    var t := sheets[id := Tokened(sheets[id], pool, markerId, tokenVisual).value];
    forall k | k in t && t[k].markerId.Some? ensures t[k].markerId.value !in RemoveFirst(pool, markerId) {
      if k != id {
        assert t[k] == sheets[k];
      }
    }
    forall k1, k2 | k1 in t && k2 in t && k1 != k2 && t[k1].markerId.Some?
      ensures t[k1].markerId != t[k2].markerId
    {
      if k2 == id {
        assert t[k1] == sheets[k1];
      }
    }
  }

  // ------------------------------------------------------------ characters

  /** `remove_player`'s loop: every character the player owned is released. */
  function Released(chars: map<string, Character>, playerId: string): (r: map<string, Character>)
    ensures r.Keys == chars.Keys
  {
    map k | k in chars :: if chars[k].ownerId == Some(playerId) then chars[k].(ownerId := None) else chars[k]
  }

  /** After `remove_player` no character is owned by the player, and nothing else about any character changes. */
  lemma ReleasedSpec(chars: map<string, Character>, playerId: string)
    ensures forall k :: k in Released(chars, playerId) ==> Released(chars, playerId)[k].ownerId != Some(playerId)
    ensures forall k :: k in chars ==> Released(chars, playerId)[k].(ownerId := chars[k].ownerId) == chars[k]
    ensures forall k :: k in chars && chars[k].ownerId != Some(playerId) ==> Released(chars, playerId)[k] == chars[k]
  {
  }

  /** Every player that names a present character as its own is that character's owner. */
  predicate Linked(players: map<string, Player>, chars: map<string, Character>) {
    forall p :: p in players && players[p].characterId.Some? && players[p].characterId.value in chars ==>
      chars[players[p].characterId.value].ownerId == Some(p)
  }

  /**
   * `assign_character_to_player` as written: the character gets its new owner
   * and the player its character, but a player that held the character before
   * keeps naming it.
   */
  function AssignedAsWritten(players: map<string, Player>, chars: map<string, Character>, playerId: string,
                             characterId: string): (map<string, Player>, map<string, Character>)
    requires playerId in players && characterId in chars
  {
    (players[playerId := players[playerId].(characterId := Some(characterId))],
     chars[characterId := chars[characterId].(ownerId := Some(playerId))])
  }

  /** A character handed from one player to another leaves the first still naming it. */
  lemma AssignedAsWrittenUnlinks(c: Character, a: Player, b: Player)
    ensures var chars := map["c" := c.(ownerId := Some("p1"))];
            var players := map["p1" := a.(characterId := Some("c")), "p2" := b.(characterId := None)];
            Linked(players, chars) && !Linked(AssignedAsWritten(players, chars, "p2", "c").0,
                                             AssignedAsWritten(players, chars, "p2", "c").1)
  {
    var chars := map["c" := c.(ownerId := Some("p1"))];
    var players := map["p1" := a.(characterId := Some("c")), "p2" := b.(characterId := None)];
    var r := AssignedAsWritten(players, chars, "p2", "c");
    assert "p1" in r.0 && r.0["p1"].characterId == Some("c") && r.1["c"].ownerId == Some("p2");
  }

  /**
   * `assign_character_to_player` as its comment intends: any other player that
   * named the character lets go of it before the new link is made.
   */
  function AssignedToPlayer(players: map<string, Player>, chars: map<string, Character>, playerId: string,
                            characterId: string): (map<string, Player>, map<string, Character>)
    requires playerId in players && characterId in chars
  {
    var freed := map p | p in players ::
      if p != playerId && players[p].characterId == Some(characterId) then players[p].(characterId := None)
      else players[p];
    (freed[playerId := players[playerId].(characterId := Some(characterId))],
     chars[characterId := chars[characterId].(ownerId := Some(playerId))])
  }

  /**
   * The intended assignment keeps players and characters linked, links the two
   * given ones both ways, and changes no other player or character beyond
   * letting go of the character.
   */
  lemma AssignedToPlayerSpec(players: map<string, Player>, chars: map<string, Character>, playerId: string,
                             characterId: string)
    requires playerId in players && characterId in chars
    ensures var r := AssignedToPlayer(players, chars, playerId, characterId);
      r.0.Keys == players.Keys && r.1.Keys == chars.Keys &&
      r.0[playerId].characterId == Some(characterId) && r.1[characterId].ownerId == Some(playerId) &&
      (forall p :: p in players && p != playerId ==>
        r.0[p] == (if players[p].characterId == Some(characterId) then players[p].(characterId := None) else players[p])) &&
      (forall k :: k in chars && k != characterId ==> r.1[k] == chars[k]) &&
      (Linked(players, chars) ==> Linked(r.0, r.1))
  {
    var r := AssignedToPlayer(players, chars, playerId, characterId);
    if Linked(players, chars) {
      forall p | p in r.0 && r.0[p].characterId.Some? && r.0[p].characterId.value in r.1
        ensures r.1[r.0[p].characterId.value].ownerId == Some(p)
      {
        if p != playerId {
          assert r.0[p].characterId == players[p].characterId;
        }
      }
    }
  }

  /** The characters keyed by id, in insertion order, with one character per marker. */
  ghost predicate CharsOk(chars: map<string, Character>, order: seq<string>) {
    Distinct(order) && (forall k :: k in order <==> k in chars) &&
    (forall k :: k in chars ==> chars[k].id == k) &&
    (forall k1, k2 :: k1 in chars && k2 in chars && k1 != k2 ==> chars[k1].markerId != chars[k2].markerId)
  }

  /** The first character in insertion order that carries the marker (the search loops of the source). */
  function FindByMarker(chars: map<string, Character>, order: seq<string>, markerId: int): (r: Option<string>)
    ensures r.Some? ==> r.value in chars && chars[r.value].markerId == markerId
    decreases |order|
  {
    if order == [] then None
    else if order[0] in chars && chars[order[0]].markerId == markerId then Some(order[0])
    else FindByMarker(chars, order[1..], markerId)
  }

  /** The search finds a character exactly when one carries the marker, and then that one. */
  lemma {:induction false} FindByMarkerSpec(chars: map<string, Character>, order: seq<string>, markerId: int)
    ensures FindByMarker(chars, order, markerId).Some? ==>
      FindByMarker(chars, order, markerId).value in chars && FindByMarker(chars, order, markerId).value in order &&
      chars[FindByMarker(chars, order, markerId).value].markerId == markerId
    ensures FindByMarker(chars, order, markerId).None? ==>
      forall i :: 0 <= i < |order| && order[i] in chars ==> chars[order[i]].markerId != markerId
    decreases |order|
  {
    if order != [] {
      FindByMarkerSpec(chars, order[1..], markerId);
      if FindByMarker(chars, order, markerId).None? {
        forall i | 0 <= i < |order| && order[i] in chars ensures chars[order[i]].markerId != markerId {
          if i > 0 {
            assert order[i] == order[1..][i - 1];
          }
        }
      }
    }
  }

  /** With one character per marker the search result is the only character carrying it. */
  lemma FindByMarkerUnique(chars: map<string, Character>, order: seq<string>, markerId: int)
    requires CharsOk(chars, order)
    ensures FindByMarker(chars, order, markerId).None? <==> forall k :: k in chars ==> chars[k].markerId != markerId
    ensures forall k :: k in chars && chars[k].markerId == markerId ==> FindByMarker(chars, order, markerId) == Some(k)
  {
    FindByMarkerSpec(chars, order, markerId);
    forall k | k in chars && chars[k].markerId == markerId ensures FindByMarker(chars, order, markerId).Some? {
      assert k in order;
      var i :| 0 <= i < |order| && order[i] == k;
    }
  }

  /** The id `add_character_from_marker` gives a new character; `suffix` stands for the random hex part. */
  function CharacterId(markerId: int, suffix: string): string {
    "char_" + IntText(markerId) + "_" + suffix
  }

  /** The character `add_character_from_marker` builds from a template, with the source's defaults. */
  function FromTemplate(id: string, markerId: int, t: Template, position: Position): (c: Character)
    ensures c.id == id && c.markerId == markerId && c.position == Some(position) && c.ownerId.None?
    ensures c.hp == t.hp.GetOr(100) && c.maxHp == t.maxHp.GetOr(100) && c.mana == t.mana.GetOr(100)
    ensures c.name == t.name.GetOr("Personaje " + IntText(markerId)) && c.abilities == t.abilities.GetOr([])
  {
    Character(id, markerId, t.name.GetOr("Personaje " + IntText(markerId)), t.characterClass.GetOr("Aventurero"),
              t.hp.GetOr(100), t.maxHp.GetOr(100), t.mana.GetOr(100), t.maxMana.GetOr(100), t.armor.GetOr(0),
              t.speed.GetOr(6), t.abilities.GetOr([]), [], Some(position), None, true)
  }

  /**
   * Storing a character under its id keeps the order consistent and one
   * character per marker, provided no other character carries its marker; a
   * new id goes to the end of the order.
   */
  lemma CharsOkPut(chars: map<string, Character>, order: seq<string>, c: Character)
    requires CharsOk(chars, order)
    requires forall k :: k in chars && k != c.id ==> chars[k].markerId != c.markerId
    ensures CharsOk(chars[c.id := c], if c.id in chars then order else order + [c.id])
  {
    if c.id !in chars {
      var o := order + [c.id];
      assert forall k :: k in o <==> k in order || k == c.id;
      assert Distinct(o) by {
        forall i, j | 0 <= i < j < |o| ensures o[i] != o[j] {
          if j == |order| {
            assert o[i] == order[i];
          }
        }
      }
    }
  }

  /** Changing characters without touching their ids or markers keeps the order consistent. */
  lemma CharsOkRetouched(chars: map<string, Character>, r: map<string, Character>, order: seq<string>)
    requires CharsOk(chars, order) && r.Keys == chars.Keys
    requires forall k :: k in r ==> r[k].id == chars[k].id && r[k].markerId == chars[k].markerId
    ensures CharsOk(r, order)
  {
  }

  /** Popping a character keeps the order consistent. */
  lemma CharsOkRemove(chars: map<string, Character>, order: seq<string>, id: string)
    requires CharsOk(chars, order) && id in chars
    ensures CharsOk(chars - {id}, Without(order, {id}))
  {
    WithoutDistinct(order, {id});
    forall k ensures k in Without(order, {id}) <==> k in chars - {id} {
      WithoutMember(order, {id}, k);
    }
  }

  // --------------------------------------------------------------- combat

  /** The cooldown loop of `next_turn`: every entry loses one turn and entries at or below 0 go. */
  function Tick(cd: map<string, int>): (r: map<string, int>)
    ensures forall a :: a in r <==> a in cd && cd[a] > 1
  {
    map a | a in cd && cd[a] - 1 > 0 :: cd[a] - 1
  }

  /** The cooldown loop part way: the abilities in `todo` are not yet visited. */
  function TickPart(cd: map<string, int>, todo: set<string>): map<string, int> {
    map a | a in cd && (a in todo || cd[a] - 1 > 0) :: if a in todo then cd[a] else cd[a] - 1
  }

  /** Visiting one more ability of the cooldown loop: it is dropped when it runs out, else one turn shorter. */
  lemma TickPartStep(cd: map<string, int>, todo: set<string>, a: string)
    requires a in todo && todo <= cd.Keys
    ensures TickPart(cd, todo - {a}) ==
      if cd[a] - 1 <= 0 then TickPart(cd, todo) - {a} else TickPart(cd, todo)[a := cd[a] - 1]
  {
  }

  lemma TickPartEnds(cd: map<string, int>)
    ensures TickPart(cd, cd.Keys) == cd
    ensures TickPart(cd, {}) == Tick(cd)
  {
  }

  /** Cooldowns left after a tick are still positive and one turn shorter. */
  lemma TickSpec(cd: map<string, int>)
    ensures forall a :: a in Tick(cd) ==> Tick(cd)[a] > 0 && Tick(cd)[a] == cd[a] - 1
    ensures forall a :: a in cd && cd[a] <= 1 ==> a !in Tick(cd)
  {
  }

  /** Every cooldown stored is positive. */
  ghost predicate CooldownsOk(cooldowns: map<string, map<string, int>>) {
    forall c, a :: c in cooldowns && a in cooldowns[c] ==> cooldowns[c][a] > 0
  }

  /** Storing positive cooldowns for one character keeps every stored cooldown positive. */
  lemma CooldownsOkPut(cooldowns: map<string, map<string, int>>, characterId: string, cd: map<string, int>)
    requires CooldownsOk(cooldowns) && forall a :: a in cd ==> cd[a] > 0
    ensures CooldownsOk(cooldowns[characterId := cd])
  {
  }

  /** The rotation of `next_turn`: the next index around the order, and whether the round wrapped. */
  function Rotate(order: seq<string>, idx: nat): (r: (nat, bool))
    requires idx < |order|
    ensures r.0 < |order|
    ensures r.1 <==> r.0 == 0
    ensures r.0 == if idx + 1 == |order| then 0 else idx + 1
  {
    var next := (idx + 1) % |order|;
    (next, next == 0)
  }

  // ------------------------------------------------------------- abilities

  /** The validation cascade of `execute_ability`, in the source's order. */
  function Check(chars: map<string, Character>, abilities: map<string, Ability>,
                 cooldowns: map<string, map<string, int>>, characterId: string, abilityId: string): Option<Failure>
  {
    if characterId !in chars then Some(UnknownCharacter)
    else if abilityId !in abilities then Some(UnknownAbility)
    else if abilityId !in chars[characterId].abilities then Some(NotOwned)
    else if characterId in cooldowns && abilityId in cooldowns[characterId] then
      Some(OnCooldown(cooldowns[characterId][abilityId]))
    else if chars[characterId].mana < abilities[abilityId].manaCost then Some(InsufficientMana)
    else None
  }

  /** Python's truth value of an optional id: present and non-empty. */
  predicate Truthy(id: Option<string>) {
    id.Some? && id.value != ""
  }

  /** Whether the damage step of `execute_ability` applies. */
  predicate Hits(chars: map<string, Character>, ability: Ability, targetId: Option<string>) {
    ability.damage > 0 && Truthy(targetId) && targetId.value in chars
  }

  /** `self.state.characters.get(target_id, character)`. */
  function HealTarget(chars: map<string, Character>, targetId: Option<string>, characterId: string): string {
    if targetId.Some? && targetId.value in chars then targetId.value else characterId
  }

  /** Mana spent by the caster. */
  function Spent(chars: map<string, Character>, characterId: string, ability: Ability): map<string, Character>
    requires characterId in chars
  {
    chars[characterId := chars[characterId].(mana := chars[characterId].mana - ability.manaCost)]
  }

  /** The damage step: the target's hp drops by the damage, never below 0. */
  function Damaged(chars: map<string, Character>, ability: Ability, targetId: Option<string>): map<string, Character> {
    if Hits(chars, ability, targetId) then
      var t := chars[targetId.value];
      chars[targetId.value := t.(hp := if t.hp - ability.damage > 0 then t.hp - ability.damage else 0)]
    else chars
  }

  /** The heal step: the target (or the caster) gains the heal, never above its `max_hp`. */
  function Healed(chars: map<string, Character>, ability: Ability, targetId: Option<string>, characterId: string)
    : map<string, Character>
    requires characterId in chars
  {
    if ability.heal > 0 then
      var k := HealTarget(chars, targetId, characterId);
      var t := chars[k];
      chars[k := t.(hp := if t.maxHp < t.hp + ability.heal then t.maxHp else t.hp + ability.heal)]
    else chars
  }

  /** The characters after a successful `execute_ability`. */
  function Executed(chars: map<string, Character>, ability: Ability, characterId: string, targetId: Option<string>)
    : map<string, Character>
    requires characterId in chars
  {
    var spent := Spent(chars, characterId, ability);
    Healed(Damaged(spent, ability, targetId), ability, targetId, characterId)
  }

  /** The cooldowns after a successful `execute_ability`. */
  function Cooled(cooldowns: map<string, map<string, int>>, characterId: string, ability: Ability, abilityId: string)
    : map<string, map<string, int>>
  {
    if ability.cooldown > 0 then
      var cd := if characterId in cooldowns then cooldowns[characterId] else map[];
      cooldowns[characterId := cd[abilityId := ability.cooldown]]
    else cooldowns
  }

  /** The result of a successful `execute_ability`. */
  function Success(chars: map<string, Character>, ability: Ability, abilityId: string, targetId: Option<string>)
    : Outcome
  {
    Succeeded(if Hits(chars, ability, targetId) then ability.damage else 0,
              if ability.heal > 0 then ability.heal else 0,
              if ability.cooldown > 0 then Some(abilityId) else None)
  }

  /** A successful ability changes no character other than the caster, the damaged target and the healed one. */
  lemma ExecutedFrame(chars: map<string, Character>, ability: Ability, characterId: string, targetId: Option<string>)
    requires characterId in chars
    ensures Executed(chars, ability, characterId, targetId).Keys == chars.Keys
    ensures forall k :: (k in chars && k != characterId && (!Hits(chars, ability, targetId) || k != targetId.value) &&
      (ability.heal <= 0 || k != HealTarget(chars, targetId, characterId))) ==>
      Executed(chars, ability, characterId, targetId)[k] == chars[k]
  {
  }

  /** A successful ability keeps the characters' ids, order and markers. */
  lemma ExecutedKeepsChars(chars: map<string, Character>, order: seq<string>, ability: Ability, characterId: string,
                           targetId: Option<string>)
    requires CharsOk(chars, order) && characterId in chars
    ensures CharsOk(Executed(chars, ability, characterId, targetId), order)
  {
    var s := Spent(chars, characterId, ability);
    CharsOkUpdate(chars, order, characterId, chars[characterId].(mana := chars[characterId].mana - ability.manaCost));
    DamagedKeepsChars(s, order, ability, targetId);
    HealedKeepsChars(Damaged(s, ability, targetId), order, ability, targetId, characterId);
  }

  lemma DamagedKeepsChars(chars: map<string, Character>, order: seq<string>, ability: Ability, targetId: Option<string>)
    requires CharsOk(chars, order)
    ensures CharsOk(Damaged(chars, ability, targetId), order)
  {
    if Hits(chars, ability, targetId) {
      var t := chars[targetId.value];
      CharsOkUpdate(chars, order, targetId.value, t.(hp := if t.hp - ability.damage > 0 then t.hp - ability.damage else 0));
    }
  }

  lemma HealedKeepsChars(chars: map<string, Character>, order: seq<string>, ability: Ability, targetId: Option<string>,
                         characterId: string)
    requires CharsOk(chars, order) && characterId in chars
    ensures CharsOk(Healed(chars, ability, targetId, characterId), order)
  {
    if ability.heal > 0 {
      var k := HealTarget(chars, targetId, characterId);
      var t := chars[k];
      CharsOkUpdate(chars, order, k, t.(hp := if t.maxHp < t.hp + ability.heal then t.maxHp else t.hp + ability.heal));
    }
  }

  /** Changing one character without touching its id or marker keeps the order consistent. */
  lemma CharsOkUpdate(chars: map<string, Character>, order: seq<string>, k: string, c: Character)
    requires CharsOk(chars, order) && k in chars && c.id == chars[k].id && c.markerId == chars[k].markerId
    ensures CharsOk(chars[k := c], order)
  {
  }

  /** The caster pays exactly the mana cost, and only its hp may change besides. */
  lemma ExecutedMana(chars: map<string, Character>, ability: Ability, characterId: string, targetId: Option<string>)
    requires characterId in chars
    ensures Executed(chars, ability, characterId, targetId)[characterId] ==
      chars[characterId].(mana := chars[characterId].mana - ability.manaCost,
                          hp := Executed(chars, ability, characterId, targetId)[characterId].hp)
  {
  }

  /**
   * Damage lands only on a known target other than the empty id, and takes its
   * hp down by the damage but never below 0; the healed character ends at or
   * below its `max_hp`.
   */
  lemma ExecutedClamps(chars: map<string, Character>, ability: Ability, characterId: string, targetId: Option<string>)
    requires characterId in chars
    ensures (Hits(chars, ability, targetId) && targetId.value != characterId && ability.heal <= 0) ==>
      Executed(chars, ability, characterId, targetId)[targetId.value].hp ==
        (if chars[targetId.value].hp > ability.damage then chars[targetId.value].hp - ability.damage else 0)
    ensures !Hits(chars, ability, targetId) && ability.heal <= 0 ==>
      Executed(chars, ability, characterId, targetId) == Spent(chars, characterId, ability)
    ensures ability.heal > 0 ==>
      Executed(chars, ability, characterId, targetId)[HealTarget(chars, targetId, characterId)].hp <=
        chars[HealTarget(chars, targetId, characterId)].maxHp
  {
  }

  /** A cooldown is stored exactly when the ability has one, and stored cooldowns stay positive. */
  lemma CooledSpec(cooldowns: map<string, map<string, int>>, characterId: string, ability: Ability, abilityId: string)
    ensures ability.cooldown > 0 ==> (characterId in Cooled(cooldowns, characterId, ability, abilityId) &&
      Cooled(cooldowns, characterId, ability, abilityId)[characterId] ==
        (if characterId in cooldowns then cooldowns[characterId] else map[])[abilityId := ability.cooldown])
    ensures ability.cooldown <= 0 ==> Cooled(cooldowns, characterId, ability, abilityId) == cooldowns
    ensures CooldownsOk(cooldowns) ==> CooldownsOk(Cooled(cooldowns, characterId, ability, abilityId))
  {
  }

  /** One entry of `get_available_abilities`. */
  datatype AbilityInfo = AbilityInfo(ability: Ability, cooldownLeft: int, canUse: bool)

  /** The cooldown `get_available_abilities` reports: the stored turns, or 0. */
  function CooldownLeft(cooldowns: map<string, map<string, int>>, characterId: string, abilityId: string): int {
    if characterId in cooldowns && abilityId in cooldowns[characterId] then cooldowns[characterId][abilityId] else 0
  }

  /** The entry `get_available_abilities` reports for one known ability. */
  function Info(c: Character, ability: Ability, cooldowns: map<string, map<string, int>>, characterId: string,
                abilityId: string): AbilityInfo
  {
    var left := CooldownLeft(cooldowns, characterId, abilityId);
    AbilityInfo(ability, left, left == 0 && c.mana >= ability.manaCost)
  }

  /**
   * With every stored cooldown positive, the `can_use` flag of an ability the
   * character owns is exactly "`execute_ability` passes its checks".
   */
  lemma CanUseMatchesCheck(chars: map<string, Character>, abilities: map<string, Ability>,
                           cooldowns: map<string, map<string, int>>, characterId: string, abilityId: string)
    requires CooldownsOk(cooldowns)
    requires characterId in chars && abilityId in abilities && abilityId in chars[characterId].abilities
    ensures Info(chars[characterId], abilities[abilityId], cooldowns, characterId, abilityId).canUse <==>
      Check(chars, abilities, cooldowns, characterId, abilityId).None?
  {
  }

  /** `get_available_abilities` for the ability ids `ids`: one entry per known id, in order. */
  function Available(c: Character, abilities: map<string, Ability>, cooldowns: map<string, map<string, int>>,
                     characterId: string, ids: seq<string>): seq<AbilityInfo>
    decreases |ids|
  {
    if ids == [] then []
    else
      var rest := Available(c, abilities, cooldowns, characterId, ids[..|ids| - 1]);
      var a := ids[|ids| - 1];
      if a in abilities then rest + [Info(c, abilities[a], cooldowns, characterId, a)] else rest
  }

  /**
   * Every entry of `get_available_abilities` is a known ability the character
   * lists, with its stored cooldown, and with every stored cooldown positive
   * its `can_use` is exactly "`execute_ability` passes its checks".
   */
  lemma {:induction false} AvailableSpec(chars: map<string, Character>, abilities: map<string, Ability>,
                                         cooldowns: map<string, map<string, int>>, characterId: string, ids: seq<string>)
    requires characterId in chars && CooldownsOk(cooldowns)
    requires forall i :: 0 <= i < |ids| ==> ids[i] in chars[characterId].abilities
    ensures forall e :: e in Available(chars[characterId], abilities, cooldowns, characterId, ids) ==>
      exists i :: (0 <= i < |ids| && ids[i] in abilities && e.ability == abilities[ids[i]] &&
        e.cooldownLeft == CooldownLeft(cooldowns, characterId, ids[i]) &&
        (e.canUse <==> Check(chars, abilities, cooldowns, characterId, ids[i]).None?))
    ensures |Available(chars[characterId], abilities, cooldowns, characterId, ids)| <= |ids|
    decreases |ids|
  {
    if ids != [] {
      var pre := ids[..|ids| - 1];
      AvailableSpec(chars, abilities, cooldowns, characterId, pre);
      var a := ids[|ids| - 1];
      if a in abilities {
        CanUseMatchesCheck(chars, abilities, cooldowns, characterId, a);
      }
      forall e | e in Available(chars[characterId], abilities, cooldowns, characterId, ids)
        ensures exists i :: (0 <= i < |ids| && ids[i] in abilities &&
          e.ability == abilities[ids[i]] && e.cooldownLeft == CooldownLeft(cooldowns, characterId, ids[i]) &&
          (e.canUse <==> Check(chars, abilities, cooldowns, characterId, ids[i]).None?))
      {
        if e in Available(chars[characterId], abilities, cooldowns, characterId, pre) {
          var i :| 0 <= i < |pre| && pre[i] in abilities && e.ability == abilities[pre[i]] &&
            e.cooldownLeft == CooldownLeft(cooldowns, characterId, pre[i]) &&
            (e.canUse <==> Check(chars, abilities, cooldowns, characterId, pre[i]).None?);
          assert ids[i] == pre[i];
        } else {
          assert ids[|ids| - 1] == a;
        }
      }
    }
  }
}
