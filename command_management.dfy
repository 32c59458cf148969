/**
 * The `!command` chat command (`add`, `response`, `cooldown`, `restrict`, `remove`), which edits
 * the custom commands held by the command store. The store is a class whose `commands` field the
 * handler reassigns; each subcommand is specified by a function on the store's value, and the
 * imperative handler is proved to follow that specification.
 *
 * Two behaviours of the handler are reproduced as written: its "not found" test compares the
 * result of `Array.find` with `null`, which `find` never returns (a missing command is
 * `undefined`, and using it throws); and `response` counts chat effects by `id` but appends
 * one keyed by `type`.
 */
module CommandManagement {
  import opened Wrappers
  import opened JsStrings
  import opened JsNumbers
  import opened TriggerArgs
  import opened Permissions

  const ChatEffectId: string := "firebot:chat"

  /** One effect of a command. A chat effect written by `add` carries `id`; one appended by
      `response` carries `type` instead. */
  datatype Effect = Effect(id: Option<string>, effectType: Option<string>, message: string)

  /** A command's `effects` field: absent, a plain array (the shape `add` writes), or the
      `{ list: [...] }` container the rest of the application writes. */
  datatype Effects = NoEffects | EffectArray(items: seq<Effect>) | EffectList(list: seq<Effect>)

  datatype Permission = PermissionNone | PermissionGroup(groups: seq<string>) | PermissionOther(kind: string)

  datatype Cooldown = Cooldown(user: Num, global: Num)

  datatype CustomCommand = CustomCommand(
    trigger: string,
    active: bool,
    autoDeleteTrigger: bool,
    scanWholeMessage: bool,
    cooldown: Cooldown,
    permission: Permission,
    effects: Effects)

  /** What the handler answers in chat (the text itself is not modelled), nothing at all, or
      that it threw a `TypeError` (its promise then never resolves and nothing more happens). */
  datatype Reply =
    | Usage
    | TriggerTaken
    | Added
    | NotFound
    | TooManyChatEffects
    | ResponseUpdated
    | CooldownUpdated(user: Num, global: Num)
    | InvalidGroup
    | RestrictionUpdated
    | Removed
    | NoReply
    | TypeError

  /** A handler's reply and the store's commands afterwards. */
  datatype Outcome = Outcome(reply: Reply, commands: seq<CustomCommand>)

  /** What `Array.find` gives back: the found command (by its index in the store) or
      `undefined`; `null` is what the handler compares it with. */
  datatype JsRef = JsNull | JsUndefined | Ref(index: nat)

  // ---- Reading the store ----

  predicate IsActiveWith(c: CustomCommand, trigger: string) {
    c.active && c.trigger == trigger
  }

  /** `getAllCustomCommands().filter(c => c.active).find(c => c.trigger === trigger)`, from
      position `k` of the store on. */
  function FindActiveFrom(cmds: seq<CustomCommand>, trigger: string, k: nat): (r: JsRef)
    requires k <= |cmds|
    ensures r.Ref? ==> (k <= r.index < |cmds| && IsActiveWith(cmds[r.index], trigger) &&
      forall j :: k <= j < r.index ==> !IsActiveWith(cmds[j], trigger))
    ensures r.JsUndefined? ==> forall j :: k <= j < |cmds| ==> !IsActiveWith(cmds[j], trigger)
    decreases |cmds| - k
  {
    if k == |cmds| then JsUndefined
    else if IsActiveWith(cmds[k], trigger) then Ref(k)
    else FindActiveFrom(cmds, trigger, k + 1)
  }

  function FindActive(cmds: seq<CustomCommand>, trigger: string): JsRef {
    FindActiveFrom(cmds, trigger, 0)
  }

  /** `find` never yields `null`, so every `command === null` test in the handler is false. */
  lemma {:induction false} FindActiveNeverNull(cmds: seq<CustomCommand>, trigger: string, k: nat)
    requires k <= |cmds|
    ensures FindActiveFrom(cmds, trigger, k) != JsNull
    decreases |cmds| - k
  {
    if k < |cmds| && !IsActiveWith(cmds[k], trigger) {
      FindActiveNeverNull(cmds, trigger, k + 1);
    }
  }

  /** `triggerIsTaken`: some stored custom command already uses the trigger. */
  predicate TriggerIsTaken(cmds: seq<CustomCommand>, trigger: string)
    ensures TriggerIsTaken(cmds, trigger) <==> exists c :: c in cmds && c.trigger == trigger
  {
    exists k :: 0 <= k < |cmds| && cmds[k].trigger == trigger
  }

  /** How many stored commands use the trigger. */
  function CountTrigger(cmds: seq<CustomCommand>, trigger: string): (n: nat)
    ensures n == 0 <==> !TriggerIsTaken(cmds, trigger)
    ensures n <= |cmds|
  {
    if cmds == [] then 0
    else
      var rest := CountTrigger(cmds[1..], trigger);
      assert forall k :: 1 <= k < |cmds| ==> cmds[k] == cmds[1..][k - 1];
      assert TriggerIsTaken(cmds[1..], trigger) ==> TriggerIsTaken(cmds, trigger);
      (if cmds[0].trigger == trigger then 1 else 0) + rest
  }

  lemma {:induction false} CountTriggerAppend(cmds: seq<CustomCommand>, c: CustomCommand, trigger: string)
    ensures CountTrigger(cmds + [c], trigger) == CountTrigger(cmds, trigger) + (if c.trigger == trigger then 1 else 0)
  {
    if cmds != [] {
      assert (cmds + [c])[1..] == cmds[1..] + [c];
      CountTriggerAppend(cmds[1..], c, trigger);
    }
  }

  // ---- Chat effects ----

  predicate IsChatEffect(e: Effect) {
    e.id == Some(ChatEffectId)
  }

  /** `list.filter(e => e.id === "firebot:chat").length` */
  function ChatEffectCount(list: seq<Effect>): (n: nat)
    ensures n <= |list|
    ensures n == 0 <==> forall k :: 0 <= k < |list| ==> !IsChatEffect(list[k])
  {
    if list == [] then 0
    else
      assert forall k :: 1 <= k < |list| ==> list[k] == list[1..][k - 1];
      (if IsChatEffect(list[0]) then 1 else 0) + ChatEffectCount(list[1..])
  }

  lemma {:induction false} ChatEffectCountAppend(list: seq<Effect>, e: Effect)
    ensures ChatEffectCount(list + [e]) == ChatEffectCount(list) + (if IsChatEffect(e) then 1 else 0)
  {
    if list != [] {
      assert (list + [e])[1..] == list[1..] + [e];
      ChatEffectCountAppend(list[1..], e);
    }
  }

  /** `list.find(e => e.id === "firebot:chat")`, as an index. */
  function FirstChatEffect(list: seq<Effect>): (k: nat)
    requires ChatEffectCount(list) > 0
    ensures k < |list| && IsChatEffect(list[k])
    ensures forall j :: 0 <= j < k ==> !IsChatEffect(list[j])
  {
    if IsChatEffect(list[0]) then 0
    else
      var k := FirstChatEffect(list[1..]);
      assert forall j :: 1 <= j <= k ==> list[j] == list[1..][j - 1];
      k + 1
  }

  /** `chatEffect.message = message` on the first chat effect: only that message changes. */
  function SetChatMessage(list: seq<Effect>, message: string): (r: seq<Effect>)
    requires ChatEffectCount(list) > 0
    ensures |r| == |list|
    ensures forall k :: 0 <= k < |list| && k != FirstChatEffect(list) ==> r[k] == list[k]
    ensures r[FirstChatEffect(list)] == list[FirstChatEffect(list)].(message := message)
  {
    var k := FirstChatEffect(list);
    list[k := list[k].(message := message)]
  }

  /** The chat effect `response` appends: keyed by `type`, with no `id`. */
  function AppendedChatEffect(message: string): (e: Effect)
    ensures !IsChatEffect(e) && e.effectType == Some(ChatEffectId) && e.message == message
  {
    Effect(None, Some(ChatEffectId), message)
  }

  // ---- The subcommands, on the store's value ----

  /** Replies that refuse the request. */
  predicate IsRejection(reply: Reply) {
    reply in {Usage, TriggerTaken, NotFound, TooManyChatEffects, InvalidGroup, NoReply, TypeError}
  }


  /** The command `add` saves. */
  function NewCommand(trigger: string, message: string): (r: CustomCommand)
    ensures r.trigger == trigger && r.active && r.permission == PermissionNone
    ensures r.scanWholeMessage <==> !StartsWith(trigger, "!")
    ensures r.effects.EffectArray? && ChatEffectCount(r.effects.items) == 1
    ensures r.effects.items[FirstChatEffect(r.effects.items)].message == message
  {
    CustomCommand(trigger, true, false, !StartsWith(trigger, "!"), Cooldown(Int(0), Int(0)),
      PermissionNone, EffectArray([Effect(Some(ChatEffectId), None, message)]))
  }

  /** `add`: needs a third word and a message, and a trigger no stored command uses; then
      saves one new command and changes nothing else. */
  function AddSpec(cmds: seq<CustomCommand>, argCount: nat, p: ParsedArgs): (r: Outcome)
    ensures r.reply == Added <==> argCount >= 3 && p.remainingData != "" && !TriggerIsTaken(cmds, p.trigger)
    ensures r.reply != Added ==> r.commands == cmds && IsRejection(r.reply)
    ensures r.reply == Added ==>
      |r.commands| == |cmds| + 1 && r.commands[..|cmds|] == cmds &&
      var c := r.commands[|cmds|];
      c.trigger == p.trigger && c.active && !c.autoDeleteTrigger &&
      c.scanWholeMessage == !StartsWith(p.trigger, "!") &&
      c.cooldown == Cooldown(Int(0), Int(0)) && c.permission == PermissionNone &&
      c.effects == EffectArray([Effect(Some(ChatEffectId), None, p.remainingData)])
  {
    if argCount < 3 || p.remainingData == "" then Outcome(Usage, cmds)
    else if TriggerIsTaken(cmds, p.trigger) then Outcome(TriggerTaken, cmds)
    else Outcome(Added, cmds + [NewCommand(p.trigger, p.remainingData)])
  }

  /** The effect edit of `response` on the found command: refused when it has more than one
      chat effect, the sole chat effect's message overwritten when it has one, a `type`-keyed
      effect appended when it has none. `effects` missing or a plain array makes it throw. */
  function EditResponse(cmds: seq<CustomCommand>, i: nat, message: string): (r: Outcome)
    requires i < |cmds|
    ensures r.reply in {ResponseUpdated, TooManyChatEffects, TypeError}
    ensures r.reply != ResponseUpdated ==> r.commands == cmds
    ensures r.reply == ResponseUpdated ==>
      cmds[i].effects.EffectList? && ChatEffectCount(cmds[i].effects.list) <= 1 &&
      |r.commands| == |cmds| && r.commands == cmds[i := cmds[i].(effects := r.commands[i].effects)] &&
      r.commands[i].effects.EffectList?
  {
    match cmds[i].effects
    case NoEffects => Outcome(TypeError, cmds)
    case EffectArray(_) => Outcome(TypeError, cmds)
    case EffectList(list) =>
      var n := ChatEffectCount(list);
      if n > 1 then Outcome(TooManyChatEffects, cmds)
      else
        var edited := if n == 1 then SetChatMessage(list, message) else list + [AppendedChatEffect(message)];
        Outcome(ResponseUpdated, cmds[i := cmds[i].(effects := EffectList(edited))])
  }

  function ResponseSpec(cmds: seq<CustomCommand>, argCount: nat, p: ParsedArgs): (r: Outcome)
    ensures IsRejection(r.reply) ==> r.commands == cmds
  {
    if argCount < 3 || p.remainingData == "" then Outcome(Usage, cmds)
    else match FindActive(cmds, p.trigger)
      case JsNull => Outcome(NotFound, cmds)
      case JsUndefined => Outcome(TypeError, cmds)
      case Ref(i) => EditResponse(cmds, i, p.remainingData)
  }

  /** `if (x < 0) x = 0`; NaN is left alone, as `NaN < 0` is false. */
  function ClampNegative(x: Num): (r: Num)
    ensures r.NaN? <==> x.NaN?
    ensures r.Int? ==> r.value >= 0 && (x.value >= 0 ==> r.value == x.value)
  {
    match x
    case NaN => NaN
    case Int(v) => Int(if v < 0 then 0 else v)
  }

  /** `remainingData.trim().split(" ")` */
  function CooldownTokens(remainingData: string): seq<string> {
    Split(Trim(remainingData), ' ')
  }

  /** The tokens are the trimmed data cut at every single space: none holds a space, and joined
      back with spaces they give the trimmed data. */
  lemma CooldownTokensRejoin(remainingData: string)
    ensures var tokens := CooldownTokens(remainingData);
      |tokens| >= 1 && (forall i :: 0 <= i < |tokens| ==> ' ' !in tokens[i]) &&
      Join(tokens) == Trim(remainingData)
  {
    JoinSplit(Trim(remainingData));
  }

  function CooldownSpec(cmds: seq<CustomCommand>, argCount: nat, p: ParsedArgs): (r: Outcome)
    ensures IsRejection(r.reply) ==> r.commands == cmds
  {
    var tokens := CooldownTokens(p.remainingData);
    if argCount < 3 || p.remainingData == "" || |tokens| < 2 || IsNaNCoerced(tokens[0]) || IsNaNCoerced(tokens[1]) then
      Outcome(Usage, cmds)
    else match FindActive(cmds, p.trigger)
      case JsNull => Outcome(NotFound, cmds)
      case JsUndefined => Outcome(TypeError, cmds)
      case Ref(i) =>
        var global := ClampNegative(ParseInt(tokens[0]));
        var user := ClampNegative(ParseInt(tokens[1]));
        Outcome(CooldownUpdated(user, global), cmds[i := cmds[i].(cooldown := Cooldown(user, global))])
  }

  /** The permission object `restrict` builds from the mapper's answer. */
  function PermissionFor(groups: GroupsResult): (r: Permission)
    requires !groups.Invalid?
    ensures r == PermissionNone <==> groups.Unrestricted?
    ensures groups.Groups? ==> r.PermissionGroup? && r.groups == groups.groups
  {
    if groups.Groups? then PermissionGroup(groups.groups) else PermissionNone
  }

  function RestrictSpec(cmds: seq<CustomCommand>, argCount: nat, p: ParsedArgs): (r: Outcome)
    ensures IsRejection(r.reply) ==> r.commands == cmds
  {
    if argCount < 3 || p.remainingData == "" then Outcome(Usage, cmds)
    else
      var found := FindActive(cmds, p.trigger);
      if found == JsNull then Outcome(NotFound, cmds)
      else
        var groups := MapPermArgToGroups(Some(p.remainingData));
        if groups.Invalid? then Outcome(InvalidGroup, cmds)
        else if !found.Ref? then Outcome(TypeError, cmds)
        else
          var i := found.index;
          Outcome(RestrictionUpdated, cmds[i := cmds[i].(permission := PermissionFor(groups))])
  }

  /** `removeCustomCommandByTrigger`: drops every stored command with the trigger, keeping the
      others in order. */
  function RemoveByTrigger(cmds: seq<CustomCommand>, trigger: string): (r: seq<CustomCommand>)
    ensures |r| <= |cmds|
    ensures forall c :: c in r <==> c in cmds && c.trigger != trigger
    ensures !TriggerIsTaken(r, trigger)
  {
    if cmds == [] then []
    else
      var rest := RemoveByTrigger(cmds[1..], trigger);
      assert forall c :: c in cmds <==> c == cmds[0] || c in cmds[1..];
      if cmds[0].trigger == trigger then rest else [cmds[0]] + rest
  }

  function RemoveSpec(cmds: seq<CustomCommand>, p: ParsedArgs): (r: Outcome)
    ensures IsRejection(r.reply) ==> r.commands == cmds
  {
    if FindActive(cmds, p.trigger) == JsNull then Outcome(NotFound, cmds)
    else Outcome(Removed, RemoveByTrigger(cmds, p.trigger))
  }

  /** `onTriggerEvent` of `!command`: fewer than two words, or an empty trigger, only earns the
      usage reply; every refusal leaves the store as it was. */
  function HandleSpec(cmds: seq<CustomCommand>, triggeredArg: Option<string>, args: seq<string>): (r: Outcome)
    ensures (|args| < 2 || SeparateTriggerFromArgs(args).trigger == "") ==> r == Outcome(Usage, cmds)
    ensures IsRejection(r.reply) ==> r.commands == cmds
  {
    if |args| < 2 then Outcome(Usage, cmds)
    else
      var p := SeparateTriggerFromArgs(args);
      if p.trigger == "" then Outcome(Usage, cmds)
      else if triggeredArg == Some("add") then AddSpec(cmds, |args|, p)
      else if triggeredArg == Some("response") then ResponseSpec(cmds, |args|, p)
      else if triggeredArg == Some("cooldown") then CooldownSpec(cmds, |args|, p)
      else if triggeredArg == Some("restrict") then RestrictSpec(cmds, |args|, p)
      else if triggeredArg == Some("remove") then RemoveSpec(cmds, p)
      else Outcome(NoReply, cmds)
  }

  // ---- Properties of the handler ----

  /** Which subcommand specification the handler runs once the words pass the first checks. */
  lemma Dispatch(cmds: seq<CustomCommand>, triggeredArg: Option<string>, args: seq<string>)
    requires |args| >= 2 && SeparateTriggerFromArgs(args).trigger != ""
    ensures var p := SeparateTriggerFromArgs(args);
      HandleSpec(cmds, triggeredArg, args) ==
        if triggeredArg == Some("add") then AddSpec(cmds, |args|, p)
        else if triggeredArg == Some("response") then ResponseSpec(cmds, |args|, p)
        else if triggeredArg == Some("cooldown") then CooldownSpec(cmds, |args|, p)
        else if triggeredArg == Some("restrict") then RestrictSpec(cmds, |args|, p)
        else if triggeredArg == Some("remove") then RemoveSpec(cmds, p)
        else Outcome(NoReply, cmds)
  {
  }

  /** A word other than the five subcommands never changes the store, whatever the other words:
      it earns the usage reply or no reply at all (the empty `default` of the `switch`). */
  lemma UnknownSubcommandIgnored(cmds: seq<CustomCommand>, triggeredArg: Option<string>, args: seq<string>)
    requires triggeredArg.None? || triggeredArg.value !in {"add", "response", "cooldown", "restrict", "remove"}
    ensures HandleSpec(cmds, triggeredArg, args).commands == cmds
    ensures HandleSpec(cmds, triggeredArg, args).reply == Usage || HandleSpec(cmds, triggeredArg, args).reply == NoReply
    ensures |args| >= 2 && SeparateTriggerFromArgs(args).trigger != "" ==> HandleSpec(cmds, triggeredArg, args).reply == NoReply
  {
    if |args| >= 2 && SeparateTriggerFromArgs(args).trigger != "" {
      Dispatch(cmds, triggeredArg, args);
    }
  }

  /** A command saved by `add` cannot be edited by `response`: `add` stores its effects as a
      plain array, `response` reads `effects.list`, so it throws and nothing changes. */
  lemma AddedCommandRejectsResponse(cmds: seq<CustomCommand>, argCount: nat, p: ParsedArgs, message: string)
    requires AddSpec(cmds, argCount, p).reply == Added
    requires argCount >= 3 && message != ""
    ensures var added := AddSpec(cmds, argCount, p).commands;
      ResponseSpec(added, argCount, ParsedArgs(p.trigger, message)) == Outcome(TypeError, added)
  {
    var added := AddSpec(cmds, argCount, p).commands;
    assert IsActiveWith(added[|cmds|], p.trigger);
    var found := FindActive(added, p.trigger);
    FindActiveNeverNull(added, p.trigger, 0);
    assert found == Ref(|cmds|);
  }

  /** The "could not find a command" reply is never given: `find` yields `undefined`, never `null`. */
  lemma NotFoundNeverReplied(cmds: seq<CustomCommand>, triggeredArg: Option<string>, args: seq<string>)
    ensures HandleSpec(cmds, triggeredArg, args).reply != NotFound
  {
    if |args| >= 2 && SeparateTriggerFromArgs(args).trigger != "" {
      var p := SeparateTriggerFromArgs(args);
      Dispatch(cmds, triggeredArg, args);
      FindActiveNeverNull(cmds, p.trigger, 0);
      ResponseNeverNotFound(cmds, |args|, p);
      CooldownNeverNotFound(cmds, |args|, p);
      RestrictNeverNotFound(cmds, |args|, p);
    }
  }

  lemma ResponseNeverNotFound(cmds: seq<CustomCommand>, argCount: nat, p: ParsedArgs)
    requires FindActive(cmds, p.trigger) != JsNull
    ensures ResponseSpec(cmds, argCount, p).reply != NotFound
  {
  }

  lemma CooldownNeverNotFound(cmds: seq<CustomCommand>, argCount: nat, p: ParsedArgs)
    requires FindActive(cmds, p.trigger) != JsNull
    ensures CooldownSpec(cmds, argCount, p).reply != NotFound
  {
  }

  lemma RestrictNeverNotFound(cmds: seq<CustomCommand>, argCount: nat, p: ParsedArgs)
    requires FindActive(cmds, p.trigger) != JsNull
    ensures RestrictSpec(cmds, argCount, p).reply != NotFound
  {
  }

  /** Adding the same trigger twice: the second `add` is refused and the store holds exactly one
      command with that trigger. */
  lemma DuplicateAddRejected(cmds: seq<CustomCommand>, args: seq<string>)
    requires HandleSpec(cmds, Some("add"), args).reply == Added
    ensures var once := HandleSpec(cmds, Some("add"), args).commands;
      HandleSpec(once, Some("add"), args) == Outcome(TriggerTaken, once) &&
      CountTrigger(once, SeparateTriggerFromArgs(args).trigger) == 1
  {
    var p := SeparateTriggerFromArgs(args);
    var c := NewCommand(p.trigger, p.remainingData);
    var once := cmds + [c];
    assert HandleSpec(cmds, Some("add"), args).commands == once;
    CountTriggerAppend(cmds, c, p.trigger);
    assert once[|cmds|].trigger == p.trigger;
  }

  /** Two effect lists that agree on every `id` hold as many chat effects. */
  lemma {:induction false} ChatEffectCountSameIds(a: seq<Effect>, b: seq<Effect>)
    requires |a| == |b| && forall k :: 0 <= k < |a| ==> a[k].id == b[k].id
    ensures ChatEffectCount(a) == ChatEffectCount(b)
  {
    if a != [] {
      ChatEffectCountSameIds(a[1..], b[1..]);
    }
  }

  /** `response` on a command whose effects are a `list`: more than one chat effect refuses and
      changes nothing; exactly one has only that effect's message replaced, so the command still
      has one chat effect. */
  lemma ResponseEdit(cmds: seq<CustomCommand>, i: nat, message: string)
    requires i < |cmds| && cmds[i].effects.EffectList?
    ensures var list := cmds[i].effects.list;
      var r := EditResponse(cmds, i, message);
      (ChatEffectCount(list) > 1 ==> r == Outcome(TooManyChatEffects, cmds)) &&
      (ChatEffectCount(list) == 1 ==>
        r.reply == ResponseUpdated &&
        var k := FirstChatEffect(list);
        var edited := r.commands[i].effects.list;
        |edited| == |list| && edited[k] == list[k].(message := message) &&
        (forall j :: 0 <= j < |list| && j != k ==> edited[j] == list[j]) &&
        ChatEffectCount(edited) == 1)
  {
    var list := cmds[i].effects.list;
    if ChatEffectCount(list) == 1 {
      var edited := SetChatMessage(list, message);
      ChatEffectCountSameIds(list, edited);
    }
  }

  /** `response` on a command with no chat effect appends a `type`-keyed effect that the next
      `response` does not count, so each further `response` appends another one. */
  lemma RepeatedResponseAppends(cmds: seq<CustomCommand>, i: nat, first: string, second: string)
    requires i < |cmds| && cmds[i].effects.EffectList? && ChatEffectCount(cmds[i].effects.list) == 0
    ensures var once := EditResponse(cmds, i, first);
      var twice := EditResponse(once.commands, i, second);
      once.reply == ResponseUpdated && twice.reply == ResponseUpdated &&
      twice.commands[i].effects ==
        EffectList(cmds[i].effects.list + [AppendedChatEffect(first), AppendedChatEffect(second)])
  {
    var list := cmds[i].effects.list;
    ChatEffectCountAppend(list, AppendedChatEffect(first));
    assert list + [AppendedChatEffect(first)] + [AppendedChatEffect(second)] ==
      list + [AppendedChatEffect(first), AppendedChatEffect(second)];
  }

  /** The words after the trigger of `!command cooldown <trigger> <global> <user>`. */
  lemma CooldownWords(g: int, u: int)
    ensures var data := DecimalString(g) + " " + DecimalString(u);
      Trim(Join([DecimalString(g), DecimalString(u)])) == data &&
      CooldownTokens(data) == [DecimalString(g), DecimalString(u)]
  {
    var dg, du := DecimalString(g), DecimalString(u);
    var data := dg + " " + du;
    assert Join([dg, du]) == data by {
      assert [dg, du][1..] == [du];
    }
    DecimalStringShape(g);
    DecimalStringShape(u);
    assert data[0] == dg[0] && data[|data| - 1] == du[|du| - 1];
    TrimOfTrimmed(data);
    DecimalStringHasNoSpace(g);
    DecimalStringHasNoSpace(u);
    SplitJoin([dg, du]);
  }

  /** Two integers written in decimal set the global cooldown to the first and the user cooldown
      to the second, each raised to 0 when negative, on the first active command with the trigger. */
  lemma CooldownFromDecimals(cmds: seq<CustomCommand>, trigger: string, g: int, u: int)
    requires trigger != "" && !StartsWith(trigger, "\"")
    requires FindActive(cmds, trigger).Ref?
    ensures var i := FindActive(cmds, trigger).index;
      var user, global := Int(if u < 0 then 0 else u), Int(if g < 0 then 0 else g);
      HandleSpec(cmds, Some("cooldown"), ["cooldown", trigger, DecimalString(g), DecimalString(u)]) ==
        Outcome(CooldownUpdated(user, global), cmds[i := cmds[i].(cooldown := Cooldown(user, global))])
  {
    var args := ["cooldown", trigger, DecimalString(g), DecimalString(u)];
    var p := ParsedArgs(trigger, DecimalString(g) + " " + DecimalString(u));
    CooldownArgsParsed(args, trigger, g, u);
    Dispatch(cmds, Some("cooldown"), args);
    DecimalIsNumeric(g);
    DecimalIsNumeric(u);
    ParseIntDecimal(g);
    ParseIntDecimal(u);
    CooldownSpecFromTokens(cmds, 4, p, DecimalString(g), DecimalString(u), g, u);
  }

  lemma CooldownArgsParsed(args: seq<string>, trigger: string, g: int, u: int)
    requires trigger != "" && !StartsWith(trigger, "\"")
    requires args == ["cooldown", trigger, DecimalString(g), DecimalString(u)]
    ensures var data := DecimalString(g) + " " + DecimalString(u);
      SeparateTriggerFromArgs(args) == ParsedArgs(trigger, data) && data != "" &&
      CooldownTokens(data) == [DecimalString(g), DecimalString(u)]
  {
    assert args[2..] == [DecimalString(g), DecimalString(u)];
    UnquotedTrigger(args);
    CooldownWords(g, u);
  }

  lemma CooldownSpecFromTokens(cmds: seq<CustomCommand>, argCount: nat, p: ParsedArgs, t0: string, t1: string, g: int, u: int)
    requires argCount >= 3 && p.remainingData != ""
    requires |CooldownTokens(p.remainingData)| >= 2
    requires CooldownTokens(p.remainingData)[0] == t0 && CooldownTokens(p.remainingData)[1] == t1
    requires !IsNaNCoerced(t0) && !IsNaNCoerced(t1) && ParseInt(t0) == Int(g) && ParseInt(t1) == Int(u)
    requires FindActive(cmds, p.trigger).Ref?
    ensures var i := FindActive(cmds, p.trigger).index;
      var user, global := Int(if u < 0 then 0 else u), Int(if g < 0 then 0 else g);
      CooldownSpec(cmds, argCount, p) ==
        Outcome(CooldownUpdated(user, global), cmds[i := cmds[i].(cooldown := Cooldown(user, global))])
  {
  }

  /** With data and two or more tokens on a found command, `cooldown` is applied exactly when
      neither of the first two tokens is NaN to `isNaN`; otherwise it earns the usage reply and
      changes nothing. Tokens after the second are never looked at. */
  lemma CooldownAcceptedIff(cmds: seq<CustomCommand>, argCount: nat, p: ParsedArgs)
    requires argCount >= 3 && p.remainingData != "" && |CooldownTokens(p.remainingData)| >= 2
    requires FindActive(cmds, p.trigger).Ref?
    ensures var tokens := CooldownTokens(p.remainingData);
      var r := CooldownSpec(cmds, argCount, p);
      (r.reply.CooldownUpdated? <==> !IsNaNCoerced(tokens[0]) && !IsNaNCoerced(tokens[1])) &&
      (!r.reply.CooldownUpdated? ==> r == Outcome(Usage, cmds))
  {
  }

  lemma DoubledSpaceTokens()
    ensures CooldownTokens("5  6") == ["5", "", "6"]
  {
    var data := "5  6";
    TrimOfTrimmed(data);
    IndexOfCharFinds(data, ' ', 0, 1);
    assert data[..1] == "5" && data[2..] == " 6";
    var rest := " 6";
    IndexOfCharFinds(rest, ' ', 0, 0);
    assert rest[..0] == "" && rest[1..] == "6";
    assert IndexOfChar("6", ' ', 0) == None by {
      assert IndexOfChar("6", ' ', 1) == None;
    }
    assert Split("6", ' ') == ["6"];
    assert Split(rest, ' ') == [""] + ["6"];
    assert Split(data, ' ') == ["5"] + ["", "6"];
  }

  /** A doubled space leaves an empty token, which `isNaN` accepts (`Number("")` is 0) but
      `parseInt` reads as NaN: when the second token is empty, the user cooldown is stored as NaN
      and the number after the doubled space is never looked at. */
  lemma EmptyTokenStoresNaN(cmds: seq<CustomCommand>, argCount: nat, p: ParsedArgs, g: int)
    requires argCount >= 3 && p.remainingData != "" && |CooldownTokens(p.remainingData)| >= 2
    requires CooldownTokens(p.remainingData)[0] == DecimalString(g) && CooldownTokens(p.remainingData)[1] == ""
    requires FindActive(cmds, p.trigger).Ref?
    ensures var i := FindActive(cmds, p.trigger).index;
      var global := Int(if g < 0 then 0 else g);
      CooldownSpec(cmds, argCount, p) ==
        Outcome(CooldownUpdated(NaN, global), cmds[i := cmds[i].(cooldown := Cooldown(NaN, global))])
  {
    DecimalIsNumeric(g);
    ParseIntDecimal(g);
    IsNaNCoercedCases("");
    ParseIntNonNumeric("");
  }

  /** `cooldown !t 5  6`: the data `5  6` splits into `5`, an empty token and `6`, so the user
      cooldown becomes NaN. */
  lemma DoubledSpaceStoresNaN(cmds: seq<CustomCommand>, p: ParsedArgs)
    requires p.remainingData == "5  6" && FindActive(cmds, p.trigger).Ref?
    ensures var i := FindActive(cmds, p.trigger).index;
      CooldownSpec(cmds, 5, p) ==
        Outcome(CooldownUpdated(NaN, Int(5)), cmds[i := cmds[i].(cooldown := Cooldown(NaN, Int(5)))])
  {
    DoubledSpaceTokens();
    assert DecimalString(5) == "5";
    EmptyTokenStoresNaN(cmds, 5, p, 5);
  }

  /** One number alone is not enough for `cooldown`: usage reply, nothing changed. */
  lemma CooldownNeedsTwoNumbers(cmds: seq<CustomCommand>, trigger: string, g: int)
    requires trigger != "" && !StartsWith(trigger, "\"")
    ensures HandleSpec(cmds, Some("cooldown"), ["cooldown", trigger, DecimalString(g)]) == Outcome(Usage, cmds)
  {
    var args := ["cooldown", trigger, DecimalString(g)];
    var d := DecimalString(g);
    assert args[2..] == [d];
    UnquotedTrigger(args);
    DecimalStringShape(g);
    TrimOfTrimmed(d);
    DecimalStringHasNoSpace(g);
    assert IndexOfChar(d, ' ', 0) == None;
  }

  /** From chat, `restrict` never reaches its "provide a valid group name" reply (the data is
      never empty there); on the first active command with the trigger it sets no restriction
      for `all`/`everyone` and the mapped groups otherwise, and changes nothing else. */
  lemma RestrictSetsPermission(cmds: seq<CustomCommand>, args: seq<string>)
    requires |args| >= 2
    ensures HandleSpec(cmds, Some("restrict"), args).reply != InvalidGroup
    ensures var p := SeparateTriggerFromArgs(args);
      var found := FindActive(cmds, p.trigger);
      var groups := MapPermArgToGroups(Some(p.remainingData));
      |args| >= 3 && p.trigger != "" && p.remainingData != "" && found.Ref? ==>
        HandleSpec(cmds, Some("restrict"), args) ==
          Outcome(RestrictionUpdated, cmds[found.index := cmds[found.index].(permission :=
            if groups.Unrestricted? then PermissionNone else PermissionGroup(groups.groups))])
  {
    var p := SeparateTriggerFromArgs(args);
    if p.trigger != "" {
      Dispatch(cmds, Some("restrict"), args);
      RestrictSpecOutcome(cmds, |args|, p);
    }
  }

  lemma RestrictSpecOutcome(cmds: seq<CustomCommand>, argCount: nat, p: ParsedArgs)
    ensures RestrictSpec(cmds, argCount, p).reply != InvalidGroup
    ensures var found := FindActive(cmds, p.trigger);
      var groups := MapPermArgToGroups(Some(p.remainingData));
      argCount >= 3 && p.remainingData != "" && found.Ref? ==>
        RestrictSpec(cmds, argCount, p) ==
          Outcome(RestrictionUpdated, cmds[found.index := cmds[found.index].(permission :=
            if groups.Unrestricted? then PermissionNone else PermissionGroup(groups.groups))])
  {
  }

  /** `remove` with a non-empty trigger always reports success and leaves no stored command with
      that trigger, even when no active command had it. */
  lemma RemoveAlwaysSucceeds(cmds: seq<CustomCommand>, args: seq<string>)
    requires |args| >= 2 && SeparateTriggerFromArgs(args).trigger != ""
    ensures var t := SeparateTriggerFromArgs(args).trigger;
      var r := HandleSpec(cmds, Some("remove"), args);
      r == Outcome(Removed, RemoveByTrigger(cmds, t)) && !TriggerIsTaken(r.commands, t)
  {
    FindActiveNeverNull(cmds, SeparateTriggerFromArgs(args).trigger, 0);
    Dispatch(cmds, Some("remove"), args);
  }

  // ---- Triggers stay unique ----

  /** No two stored commands share a trigger. */
  ghost predicate UniqueTriggers(cmds: seq<CustomCommand>) {
    forall t :: CountTrigger(cmds, t) <= 1
  }

  /** The two stores hold the same triggers, position by position. */
  predicate SameTriggers(a: seq<CustomCommand>, b: seq<CustomCommand>) {
    |a| == |b| && forall k :: 0 <= k < |a| ==> a[k].trigger == b[k].trigger
  }

  lemma {:induction false} CountSameTriggers(a: seq<CustomCommand>, b: seq<CustomCommand>, t: string)
    requires SameTriggers(a, b)
    ensures CountTrigger(a, t) == CountTrigger(b, t)
  {
    if a != [] {
      assert SameTriggers(a[1..], b[1..]);
      CountSameTriggers(a[1..], b[1..], t);
    }
  }

  /** Dropping commands never makes a trigger more frequent. */
  lemma {:induction false} CountRemoveByTrigger(cmds: seq<CustomCommand>, trigger: string, t: string)
    ensures CountTrigger(RemoveByTrigger(cmds, trigger), t) <= CountTrigger(cmds, t)
  {
    if cmds != [] {
      CountRemoveByTrigger(cmds[1..], trigger, t);
      var rest := RemoveByTrigger(cmds[1..], trigger);
      if cmds[0].trigger != trigger {
        assert ([cmds[0]] + rest)[1..] == rest;
      }
    }
  }

  /** Rewriting one command without touching its trigger keeps the triggers unique. */
  lemma UpdateKeepsUnique(cmds: seq<CustomCommand>, i: nat, c: CustomCommand)
    requires i < |cmds| && c.trigger == cmds[i].trigger && UniqueTriggers(cmds)
    ensures UniqueTriggers(cmds[i := c])
  {
    var updated := cmds[i := c];
    forall t: string
      ensures CountTrigger(updated, t) <= 1
    {
      CountSameTriggers(cmds, updated, t);
    }
  }

  lemma AddKeepsUnique(cmds: seq<CustomCommand>, argCount: nat, p: ParsedArgs)
    requires UniqueTriggers(cmds)
    ensures UniqueTriggers(AddSpec(cmds, argCount, p).commands)
  {
    var r := AddSpec(cmds, argCount, p);
    if r.reply == Added {
      var c := r.commands[|cmds|];
      assert r.commands == cmds + [c];
      forall t: string
        ensures CountTrigger(r.commands, t) <= 1
      {
        CountTriggerAppend(cmds, c, t);
      }
    }
  }

  lemma ResponseKeepsUnique(cmds: seq<CustomCommand>, argCount: nat, p: ParsedArgs)
    requires UniqueTriggers(cmds)
    ensures UniqueTriggers(ResponseSpec(cmds, argCount, p).commands)
  {
    var r := ResponseSpec(cmds, argCount, p);
    if argCount >= 3 && p.remainingData != "" && FindActive(cmds, p.trigger).Ref? {
      var i := FindActive(cmds, p.trigger).index;
      if r.reply == ResponseUpdated {
        UpdateKeepsUnique(cmds, i, r.commands[i]);
      }
    }
  }

  lemma CooldownKeepsUnique(cmds: seq<CustomCommand>, argCount: nat, p: ParsedArgs)
    requires UniqueTriggers(cmds)
    ensures UniqueTriggers(CooldownSpec(cmds, argCount, p).commands)
  {
    var r := CooldownSpec(cmds, argCount, p);
    if r.reply.CooldownUpdated? {
      var i := FindActive(cmds, p.trigger).index;
      UpdateKeepsUnique(cmds, i, r.commands[i]);
    }
  }

  lemma RestrictKeepsUnique(cmds: seq<CustomCommand>, argCount: nat, p: ParsedArgs)
    requires UniqueTriggers(cmds)
    ensures UniqueTriggers(RestrictSpec(cmds, argCount, p).commands)
  {
    var r := RestrictSpec(cmds, argCount, p);
    if r.reply == RestrictionUpdated {
      var i := FindActive(cmds, p.trigger).index;
      UpdateKeepsUnique(cmds, i, r.commands[i]);
    }
  }

  lemma RemoveKeepsUnique(cmds: seq<CustomCommand>, p: ParsedArgs)
    requires UniqueTriggers(cmds)
    ensures UniqueTriggers(RemoveSpec(cmds, p).commands)
  {
    forall t: string
      ensures CountTrigger(RemoveSpec(cmds, p).commands, t) <= 1
    {
      CountRemoveByTrigger(cmds, p.trigger, t);
    }
  }

  /** `add` refuses a trigger any stored command already uses, and no other subcommand changes a
      trigger, so a store with unique triggers keeps them unique whatever the handler is given. */
  lemma TriggersStayUnique(cmds: seq<CustomCommand>, triggeredArg: Option<string>, args: seq<string>)
    requires UniqueTriggers(cmds)
    ensures UniqueTriggers(HandleSpec(cmds, triggeredArg, args).commands)
  {
    if |args| >= 2 && SeparateTriggerFromArgs(args).trigger != "" {
      var p := SeparateTriggerFromArgs(args);
      Dispatch(cmds, triggeredArg, args);
      AddKeepsUnique(cmds, |args|, p);
      ResponseKeepsUnique(cmds, |args|, p);
      CooldownKeepsUnique(cmds, |args|, p);
      RestrictKeepsUnique(cmds, |args|, p);
      RemoveKeepsUnique(cmds, p);
    }
  }

  // ---- The store and the handler ----

  /** The custom commands of the command manager. */
  class CommandStore {
    var commands: seq<CustomCommand>

    constructor (initial: seq<CustomCommand>)
      ensures commands == initial
    {
      commands := initial;
    }

    /** Looks the trigger up among the active commands, in store order. */
    method FindActiveCommand(trigger: string) returns (found: JsRef)
      ensures found == FindActive(commands, trigger)
    {
      var k := 0;
      while k < |commands|
        invariant 0 <= k <= |commands|
        invariant FindActive(commands, trigger) == FindActiveFrom(commands, trigger, k)
      {
        if commands[k].active && commands[k].trigger == trigger {
          return Ref(k);
        }
        k := k + 1;
      }
      return JsUndefined;
    }

    /** `removeCustomCommandByTrigger` */
    method RemoveCustomCommandByTrigger(trigger: string)
      modifies this
      ensures commands == RemoveByTrigger(old(commands), trigger)
    {
      var kept: seq<CustomCommand> := [];
      var k := |commands|;
      while k > 0
        invariant 0 <= k <= |commands|
        invariant kept == RemoveByTrigger(commands[k..], trigger)
      {
        k := k - 1;
        assert commands[k..][1..] == commands[k + 1..];
        if commands[k].trigger != trigger {
          kept := [commands[k]] + kept;
        }
      }
      assert commands[0..] == commands;
      commands := kept;
    }

    /** `onTriggerEvent`: parses the words, then runs the named subcommand against the store. */
    method OnTriggerEvent(triggeredArg: Option<string>, args: seq<string>) returns (reply: Reply)
      modifies this
      ensures Outcome(reply, commands) == HandleSpec(old(commands), triggeredArg, args)
    {
      if |args| < 2 {
        return Usage;
      }
      var parsed := SeparateTriggerFromArgs(args);
      if parsed.trigger == "" {
        return Usage;
      }
      if triggeredArg == Some("add") {
        reply := Add(|args|, parsed);
      } else if triggeredArg == Some("response") {
        reply := Response(|args|, parsed);
      } else if triggeredArg == Some("cooldown") {
        reply := SetCooldown(|args|, parsed);
      } else if triggeredArg == Some("restrict") {
        reply := Restrict(|args|, parsed);
      } else if triggeredArg == Some("remove") {
        reply := Remove(parsed);
      } else {
        reply := NoReply;
      }
    }

    /** `add` */
    method Add(argCount: nat, parsed: ParsedArgs) returns (reply: Reply)
      modifies this
      ensures Outcome(reply, commands) == AddSpec(old(commands), argCount, parsed)
    {
      var trigger, remainingData := parsed.trigger, parsed.remainingData;
      if argCount < 3 || remainingData == "" {
        return Usage;
      }
      if TriggerIsTaken(commands, trigger) {
        return TriggerTaken;
      }
      commands := commands + [NewCommand(trigger, remainingData)];
      reply := Added;
    }

    /** `response` */
    method Response(argCount: nat, parsed: ParsedArgs) returns (reply: Reply)
      modifies this
      ensures Outcome(reply, commands) == ResponseSpec(old(commands), argCount, parsed)
    {
      var trigger, remainingData := parsed.trigger, parsed.remainingData;
      if argCount < 3 || remainingData == "" {
        return Usage;
      }
      var found := FindActiveCommand(trigger);
      if found == JsNull {
        return NotFound;
      }
      if !found.Ref? {
        // `command.effects` on `undefined`
        return TypeError;
      }
      var i := found.index;
      var command := commands[i];
      if !command.effects.EffectList? {
        // `command.effects.list` is missing, or `command.effects` itself is
        return TypeError;
      }
      var list := command.effects.list;
      var chatEffectsCount := ChatEffectCount(list);
      if chatEffectsCount > 1 {
        return TooManyChatEffects;
      }
      if chatEffectsCount == 1 {
        var k := FirstChatEffect(list);
        list := list[k := list[k].(message := remainingData)];
      } else {
        list := list + [AppendedChatEffect(remainingData)];
      }
      command := command.(effects := EffectList(list));
      commands := commands[i := command];
      reply := ResponseUpdated;
    }

    /** `cooldown` */
    method SetCooldown(argCount: nat, parsed: ParsedArgs) returns (reply: Reply)
      modifies this
      ensures Outcome(reply, commands) == CooldownSpec(old(commands), argCount, parsed)
    {
      var trigger, remainingData := parsed.trigger, parsed.remainingData;
      var cooldownArgs := CooldownTokens(remainingData);
      var invalid := argCount < 3 || remainingData == "" || |cooldownArgs| < 2 ||
        IsNaNCoerced(cooldownArgs[0]) || IsNaNCoerced(cooldownArgs[1]);
      if invalid {
        return Usage;
      }
      var found := FindActiveCommand(trigger);
      if found == JsNull {
        return NotFound;
      }
      var globalCooldown := ParseInt(cooldownArgs[0]);
      var userCooldown := ParseInt(cooldownArgs[1]);
      if globalCooldown.Int? && globalCooldown.value < 0 {
        globalCooldown := Int(0);
      }
      if userCooldown.Int? && userCooldown.value < 0 {
        userCooldown := Int(0);
      }
      assert globalCooldown == ClampNegative(ParseInt(cooldownArgs[0]));
      assert userCooldown == ClampNegative(ParseInt(cooldownArgs[1]));
      if !found.Ref? {
        // `command.cooldown = ...` on `undefined`
        return TypeError;
      }
      var i := found.index;
      commands := commands[i := commands[i].(cooldown := Cooldown(userCooldown, globalCooldown))];
      reply := CooldownUpdated(userCooldown, globalCooldown);
    }

    /** `restrict` */
    method Restrict(argCount: nat, parsed: ParsedArgs) returns (reply: Reply)
      modifies this
      ensures Outcome(reply, commands) == RestrictSpec(old(commands), argCount, parsed)
    {
      var trigger, remainingData := parsed.trigger, parsed.remainingData;
      if argCount < 3 || remainingData == "" {
        return Usage;
      }
      var found := FindActiveCommand(trigger);
      if found == JsNull {
        return NotFound;
      }
      var permObj := PermissionNone;
      var groups := MapPermArgToGroups(Some(remainingData));
      if groups.Invalid? {
        return InvalidGroup;
      }
      if groups.Groups? {
        permObj := PermissionGroup(groups.groups);
      }
      if !found.Ref? {
        // `command.permission = ...` on `undefined`
        return TypeError;
      }
      var i := found.index;
      commands := commands[i := commands[i].(permission := permObj)];
      reply := RestrictionUpdated;
    }

    /** `remove` */
    method Remove(parsed: ParsedArgs) returns (reply: Reply)
      modifies this
      ensures Outcome(reply, commands) == RemoveSpec(old(commands), parsed)
    {
      var found := FindActiveCommand(parsed.trigger);
      if found == JsNull {
        return NotFound;
      }
      RemoveCustomCommandByTrigger(parsed.trigger);
      reply := Removed;
    }
  }
}
