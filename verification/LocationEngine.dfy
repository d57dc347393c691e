/**
 The logic engine's table of loaded locations.

 Each handler is proved to take, for the location it is about, the step of that location's cache
 entry, and to leave the others; the regular looks do so for every location.
 */
module LocationEngine {
  import opened Wrappers
  import opened LocationCache
  import opened Numbers

  // ----- location names -----

  const PREFIX := "gamestate."

  /** A number at the start of a text: spaces, a sign, digits; 0 if there is none. */
  function Atoi(s: string): int {
    if s != "" && s[0] == ' ' then Atoi(s[1..])
    else if s != "" && s[0] == '-' then 0 - Number(s[1..][..Digits(s[1..])])
    else if s != "" && s[0] == '+' then Number(s[1..][..Digits(s[1..])])
    else Number(s[..Digits(s)])
  }

  function GamestateId(location: string): int {
    if PREFIX <= location then Atoi(location[|PREFIX|..]) else 0
  }

  function LocationOf(id: nat): string {
    PREFIX + Decimal(id)
  }

  /** The name of a game state's location gives its number back. */
  lemma GamestateIdOfLocation(id: nat)
    ensures GamestateId(LocationOf(id)) == id
  {
    var digits := Decimal(id);
    DecimalNumber(id);
    DigitsOfConcat(digits, "");
    assert digits + "" == digits && LocationOf(id)[|PREFIX|..] == digits && digits[..|digits|] == digits;
    assert IsDigit(digits[0]);
  }

  /** Any name that does not start with the word is that of another location. */
  lemma OtherNames(location: string)
    requires |location| < 10 || location[..10] != "gamestate."
    ensures GamestateId(location) == 0
  {
  }

  lemma NumberInFront(digits: string, rest: string)
    requires digits != "" && AllDigits(digits) && !StartsWithDigit(rest)
    ensures Atoi(digits + rest) == Number(digits)
  {
    DigitsOfConcat(digits, rest);
    assert (digits + rest)[..|digits|] == digits && (digits + rest)[0] == digits[0];
  }

  lemma AfterSign(s: string)
    requires StartsWithDigit(s)
    ensures Atoi(['+'] + s) == Atoi([' '] + s) == Atoi(s) && Atoi(['-'] + s) == 0 - Atoi(s)
  {
    assert (['+'] + s)[1..] == (['-'] + s)[1..] == ([' '] + s)[1..] == s;
  }

  /** Behind the word, a number may have a space or a sign in front, and anything that is no digit behind it. */
  lemma NumbersInNames(id: nat, rest: string)
    requires !StartsWithDigit(rest)
    ensures Atoi(Decimal(id) + rest) == id
    ensures Atoi(['+'] + (Decimal(id) + rest)) == id && Atoi([' '] + (Decimal(id) + rest)) == id
    ensures Atoi(['-'] + (Decimal(id) + rest)) == 0 - id
  {
    DecimalNumber(id);
    NumberInFront(Decimal(id), rest);
    assert IsDigit((Decimal(id) + rest)[0]);
    AfterSign(Decimal(id) + rest);
  }

  /** Where there is no number, the game state is 0. */
  lemma NoNumber(rest: string)
    requires !StartsWithDigit(rest) && (rest == "" || rest[0] !in " -+")
    ensures Atoi(rest) == 0
  {
  }

  // ----- the table -----

  class Engine {
    var statusMap: map<string, Entry>
    /** The number of the next task. */
    var nextTask: nat

    ghost function StateOf(l: string): State
      reads this
    {
      if l in statusMap then Some(statusMap[l]) else None
    }

    constructor ()
      ensures statusMap == map[] && nextTask == 1
    {
      statusMap, nextTask := map[], 1;
    }

    method Put(l: string, e: Entry)
      modifies this`statusMap
      ensures statusMap == old(statusMap)[l := e]
    {
      statusMap := statusMap[l := e];
    }

    /** A message for a location that is not loaded asks for it to be read: false. */
    method ProcessMessage(l: string, ok: bool, memory: string, now: nat) returns (loaded: bool)
      modifies this`statusMap
      ensures loaded == (l in old(statusMap)) && StateOf(l) == HandleMessage(old(StateOf(l)), ok, memory, now)
      ensures forall other | other != l :: StateOf(other) == old(StateOf(other))
    {
      loaded := l in statusMap;
      if !loaded {
        return;
      }
      var gss := statusMap[l];
      if gss.error {
        return;
      }
      gss := gss.(memory := memory);
      if !ok {
        gss := gss.(error := true);
      }
      gss := gss.(lastAccess := now);
      if !gss.dirty {
        gss := gss.(dirty := true, lastWrite := now);
      }
      Put(l, gss);
    }

    method ProcessConnect(l: string, modified: bool, memory: string, now: nat) returns (loaded: bool)
      modifies this`statusMap
      ensures loaded == (l in old(statusMap))
      ensures StateOf(l) == HandleConnect(old(StateOf(l)), modified, memory, now, GamestateId(l) > 0)
      ensures forall other | other != l :: StateOf(other) == old(StateOf(other))
    {
      loaded := l in statusMap;
      if !loaded {
        return;
      }
      var gss := statusMap[l];
      if gss.error {
        return;
      }
      if modified {
        gss := gss.(memory := memory);
      }
      if GamestateId(l) > 0 {
        gss := gss.(lastAccess := now);
        if modified {
          gss := gss.(dirty := true, lastWrite := now);
        }
      }
      Put(l, gss);
    }

    method ExecuteRead(l: string, ok: bool, data: string, now: nat)
      modifies this`statusMap
      ensures StateOf(l) == AnswerRead(old(StateOf(l)), ok, data, now)
      ensures forall other | other != l :: StateOf(other) == old(StateOf(other))
    {
      if !ok {
        statusMap := statusMap - {l};
      } else if l !in statusMap {
        Put(l, Loaded(data, now));
      }
    }

    method ExecuteWrite(l: string, taskid: nat, ok: bool, data: string, now: nat, reason: Reason)
      modifies this`statusMap
      ensures StateOf(l) == AnswerWrite(old(StateOf(l)), taskid, ok, data, now, reason)
      ensures forall other | other != l :: StateOf(other) == old(StateOf(other))
    {
      if l !in statusMap {
        return;
      }
      var gss := statusMap[l];
      gss := gss.(writes := gss.writes - {taskid});
      if ok {
        gss := gss.(dirty := gss.writes != map[], lastWrite := now, confirmed := data);
      }
      match reason {
        case ForChange =>
          if !ok {
            gss := gss.(error := true);
          }
        case ForShutdown => gss := gss.(readyToClose := true);
        case _ =>
      }
      Put(l, gss);
    }

    /** Asks for a write of the present contents, numbered with the next task, if a snapshot of them can be taken. */
    method AddWrite(l: string, taken: bool, now: nat, reason: Reason)
      modifies this
      ensures StateOf(l) == AskWrite(old(StateOf(l)), GamestateId(l), old(nextTask), taken, now, reason) &&
        nextTask == old(nextTask) + 1
      ensures forall other | other != l :: StateOf(other) == old(StateOf(other))
    {
      var taskid := nextTask;
      nextTask := nextTask + 1;
      if !taken {
        ExecuteWrite(l, taskid, reason.ForShutdown? && GamestateId(l) == 0, "", now, reason);
        return;
      }
      if l !in statusMap {
        return;
      }
      var gss := statusMap[l];
      if gss.writes == map[] && gss.memory == gss.confirmed {
        ExecuteWrite(l, taskid, true, gss.memory, now, reason);
      } else {
        Put(l, gss.(writes := gss.writes[taskid := gss.memory]));
      }
    }

    method LookAtChange(l: string, taken: bool, now: nat, delay: nat) returns (ghost taskid: nat)
      requires l in statusMap
      modifies this
      ensures StateOf(l) == WriteChanged(old(StateOf(l)), GamestateId(l), taskid, taken, now, delay)
      ensures forall other | other != l :: StateOf(other) == old(StateOf(other))
    {
      taskid := nextTask;
      var gss := statusMap[l];
      if GamestateId(l) != 0 && gss.dirty {
        if gss.lastWrite + delay < now && gss.writes == map[] {
          AddWrite(l, taken, now, ForChange);
        }
      }
    }

    /**
     Looks at every game state for changes to write; `ids` are the numbers the writes get, `mute` are
     locations that give no snapshot.
     */
    method WriteChangedGameStates(mute: set<string>, now: nat, delay: nat) returns (ghost ids: map<string, nat>)
      modifies this
      ensures forall l | l in old(statusMap) ::
        l in ids && StateOf(l) == WriteChanged(old(StateOf(l)), GamestateId(l), ids[l], l !in mute, now, delay)
      ensures forall l | l !in old(statusMap) :: StateOf(l) == None
    {
      var rest := statusMap.Keys;
      ids := map[];
      while rest != {}
        invariant rest <= old(statusMap).Keys
        invariant forall l | l in rest || l !in old(statusMap) :: StateOf(l) == old(StateOf(l))
        invariant forall l | l in old(statusMap) && l !in rest ::
          l in ids && StateOf(l) == WriteChanged(old(StateOf(l)), GamestateId(l), ids[l], l !in mute, now, delay)
        decreases |rest|
      {
        var l :| l in rest;
        assert StateOf(l) == old(StateOf(l));
        ghost var id := LookAtChange(l, l !in mute, now, delay);
        ids := ids[l := id];
        rest := rest - {l};
      }
    }

    method LookAtOld(l: string, taken: bool, force: bool, now: nat, period: nat, connected: bool)
      returns (ghost taskid: nat)
      requires l in statusMap
      modifies this
      ensures StateOf(l) == EraseOld(old(StateOf(l)), GamestateId(l), taskid, taken, force, now, period, connected)
      ensures forall other | other != l :: StateOf(other) == old(StateOf(other))
    {
      taskid := nextTask;
      var gss := statusMap[l];
      var id := GamestateId(l);
      var unused := if id > 0 then gss.lastAccess + period < now || gss.error else gss.released;
      if !force && !unused {
        return;
      }
      if id > 0 && gss.dirty && (unused || !connected) && (!gss.error || gss.writes != map[]) {
        if gss.writes == map[] {
          AddWrite(l, taken, now, ForErasure);
        }
        return;
      }
      if id == 0 && (!gss.released || gss.writes != map[]) {
        return;
      }
      if connected {
        return;
      }
      statusMap := statusMap - {l};
    }

    /** Looks at every location for those nobody uses; `players` tells where somebody is connected. */
    method EraseOldLocations(mute: set<string>, force: bool, now: nat, period: nat, players: set<string>)
      returns (ghost ids: map<string, nat>)
      modifies this
      ensures forall l | l in old(statusMap) ::
        l in ids && StateOf(l) ==
          EraseOld(old(StateOf(l)), GamestateId(l), ids[l], l !in mute, force, now, period, l in players)
      ensures forall l | l !in old(statusMap) :: StateOf(l) == None
    {
      var rest := statusMap.Keys;
      ids := map[];
      while rest != {}
        invariant rest <= old(statusMap).Keys
        invariant forall l | l in rest || l !in old(statusMap) :: StateOf(l) == old(StateOf(l))
        invariant forall l | l in old(statusMap) && l !in rest ::
          l in ids && StateOf(l) ==
            EraseOld(old(StateOf(l)), GamestateId(l), ids[l], l !in mute, force, now, period, l in players)
        decreases |rest|
      {
        var l :| l in rest;
        assert StateOf(l) == old(StateOf(l));
        ghost var id := LookAtOld(l, l !in mute, force, now, period, l in players);
        ids := ids[l := id];
        rest := rest - {l};
      }
    }

    method LookAtClosing(l: string, taken: bool, now: nat, deadline: nat) returns (ghost taskid: nat)
      requires l in statusMap
      modifies this
      ensures StateOf(l) == CloseDown(old(StateOf(l)), GamestateId(l), taskid, taken, now, deadline)
      ensures forall other | other != l :: StateOf(other) == old(StateOf(other))
    {
      taskid := nextTask;
      var gss := statusMap[l];
      var isGamestate := GamestateId(l) > 0;
      if isGamestate && !gss.dirty {
        gss := gss.(readyToClose := true);
      }
      if now > deadline {
        gss := gss.(readyToClose := true);
      }
      if gss.readyToClose {
        statusMap := statusMap - {l};
      } else if gss.writes == map[] && ((isGamestate && gss.dirty) || (!isGamestate && gss.released)) {
        AddWrite(l, taken, now, ForShutdown);
      }
    }

    /** Looks at every location while the group closes down. */
    method WriteChangedLocationsGroupShutdown(mute: set<string>, now: nat, deadline: nat)
      returns (ghost ids: map<string, nat>)
      modifies this
      ensures forall l | l in old(statusMap) ::
        l in ids && StateOf(l) == CloseDown(old(StateOf(l)), GamestateId(l), ids[l], l !in mute, now, deadline)
      ensures forall l | l !in old(statusMap) :: StateOf(l) == None
    {
      var rest := statusMap.Keys;
      ids := map[];
      while rest != {}
        invariant rest <= old(statusMap).Keys
        invariant forall l | l in rest || l !in old(statusMap) :: StateOf(l) == old(StateOf(l))
        invariant forall l | l in old(statusMap) && l !in rest ::
          l in ids && StateOf(l) == CloseDown(old(StateOf(l)), GamestateId(l), ids[l], l !in mute, now, deadline)
        decreases |rest|
      {
        var l :| l in rest;
        assert StateOf(l) == old(StateOf(l));
        ghost var id := LookAtClosing(l, l !in mute, now, deadline);
        ids := ids[l := id];
        rest := rest - {l};
      }
    }
  }
}
