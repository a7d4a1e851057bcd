/**
 * The plugin's daily playtime rules: the configured default limit, the kick
 * message, what a periodic tick does for each online player, and the checks
 * made when a player logs in or joins.
 */
module Playtime {
  import opened Wrappers
  import opened JavaText
  import opened Store
  import opened PlaytimeStore
  import opened PluginInput

  const DEFAULT_PLAYTIME_DAILY_LIMIT_MINUTES: int := 120
  const PLAYTIME_WARNING_WINDOW_MINUTES: int := 5
  const DEFAULT_PLAYTIME_KICK_MESSAGE: string := "Daily playtime limit reached (" + "{used}/{limit}" + " min). Come back tomorrow."

  /** The `playtime.*` configuration entries; an absent entry takes the plugin's default. */
  datatype PlaytimeConfig = PlaytimeConfig(enabled: bool, defaultDailyLimitMinutes: Option<int>, kickMessage: Option<string>)

  /** `getDefaultPlaytimeLimitMinutes`: the configured limit (120 when absent), raised to at least one minute. */
  function DefaultPlaytimeLimitMinutes(config: PlaytimeConfig): (limit: int)
    ensures limit >= 1
    ensures config.defaultDailyLimitMinutes.None? ==> limit == DEFAULT_PLAYTIME_DAILY_LIMIT_MINUTES
    ensures config.defaultDailyLimitMinutes.Some? ==>
              limit == if config.defaultDailyLimitMinutes.value < 1 then 1 else config.defaultDailyLimitMinutes.value
  {
    var configured := config.defaultDailyLimitMinutes.GetOr(DEFAULT_PLAYTIME_DAILY_LIMIT_MINUTES);
    if 1 < configured then configured else 1
  }

  /** `buildPlaytimeKickMessage`: the template with `{used}`, then `{limit}`, replaced by the numbers. */
  function BuildPlaytimeKickMessage(config: PlaytimeConfig, usedMinutes: int, limitMinutes: int): string {
    var template := config.kickMessage.GetOr(DEFAULT_PLAYTIME_KICK_MESSAGE);
    Replace(Replace(template, "{used}", IntToString(usedMinutes)), "{limit}", IntToString(limitMinutes))
  }

  /** The printed form of a number has no `{`, so no placeholder can be built from it. */
  lemma NoBraceInNumber(n: int)
    ensures '{' !in IntToString(n)
  {
  }

  /** With the default template, the kick message states the used minutes and the limit. */
  lemma DefaultKickMessage(config: PlaytimeConfig, usedMinutes: int, limitMinutes: int)
    requires config.kickMessage.None?
    ensures BuildPlaytimeKickMessage(config, usedMinutes, limitMinutes) ==
            "Daily playtime limit reached (" + IntToString(usedMinutes) + "/" + IntToString(limitMinutes)
            + " min). Come back tomorrow."
  {
    var head, tail := "Daily playtime limit reached (", " min). Come back tomorrow.";
    assert DEFAULT_PLAYTIME_KICK_MESSAGE == head + "{used}/{limit}" + tail;
    NoBraceInNumber(usedMinutes);
    NoBraceInNumber(limitMinutes);
    KickTemplateFilled(head, tail, IntToString(usedMinutes), IntToString(limitMinutes));
  }

  /** A template with one `{used}/{limit}` and no other brace has both placeholders filled in. */
  lemma KickTemplateFilled(head: string, tail: string, used: string, limit: string)
    requires '{' !in head && '{' !in tail && '{' !in used
    ensures Replace(Replace(head + "{used}/{limit}" + tail, "{used}", used), "{limit}", limit) ==
            head + used + "/" + limit + tail
  {
    UsedFilled(head, tail, used);
    var prefix := head + used + "/";
    assert head + used + "/{limit}" + tail == prefix + "{limit}" + tail;
    LimitFilled(prefix, tail, limit);
  }

  /** The first pass fills `{used}` and leaves `{limit}` in place. */
  lemma UsedFilled(head: string, tail: string, used: string)
    requires '{' !in head && '{' !in tail
    ensures Replace(head + "{used}/{limit}" + tail, "{used}", used) == head + used + "/{limit}" + tail
  {
    var afterUsed := "/{limit}" + tail;
    assert head + "{used}/{limit}" + tail == head + ("{used}" + afterUsed);
    ReplaceSkipsPrefix(head, "{used}" + afterUsed, "{used}", used);
    ReplaceAtFront(afterUsed, "{used}", used);
    LimitPlaceholderKept(tail, used);
  }

  /** The second pass fills `{limit}`. */
  lemma LimitFilled(prefix: string, tail: string, limit: string)
    requires '{' !in prefix && '{' !in tail
    ensures Replace(prefix + "{limit}" + tail, "{limit}", limit) == prefix + limit + tail
  {
    assert prefix + "{limit}" + tail == prefix + ("{limit}" + tail);
    ReplaceSkipsPrefix(prefix, "{limit}" + tail, "{limit}", limit);
    ReplaceAtFront(tail, "{limit}", limit);
    ReplaceAbsent(tail, "{limit}", limit);
  }

  /** Text after "/{limit}" without braces holds no `{used}` placeholder. */
  lemma LimitPlaceholderKept(tail: string, used: string)
    requires '{' !in tail
    ensures Replace("/{limit}" + tail, "{used}", used) == "/{limit}" + tail
  {
    var rest := "{limit}" + tail;
    assert "/{limit}" + tail == "/" + rest;
    ReplaceSkipsPrefix("/", rest, "{used}", used);
    assert rest[..6] != "{used}" by {
      assert rest[1] == 'l';
    }
    assert rest[1..] == "limit}" + tail;
    ReplaceAbsent(rest[1..], "{used}", used);
  }

  /** A configured template without placeholders is sent as it is. */
  lemma TemplateWithoutPlaceholders(config: PlaytimeConfig, usedMinutes: int, limitMinutes: int)
    requires config.kickMessage.Some? && '{' !in config.kickMessage.value
    ensures BuildPlaytimeKickMessage(config, usedMinutes, limitMinutes) == config.kickMessage.value
  {
    ReplaceAbsent(config.kickMessage.value, "{used}", IntToString(usedMinutes));
    ReplaceAbsent(config.kickMessage.value, "{limit}", IntToString(limitMinutes));
  }

  /** The daily limit is reached once the used minutes are at least the effective limit. */
  predicate LimitReached(p: PlayerPlaytime) {
    p.dailyUsedMinutes >= p.effectiveLimitMinutes
  }

  // ---------------------------------------------------------------------------
  // The periodic tick
  // ---------------------------------------------------------------------------

  /**
   * What a tick tells a player: a warning with the minutes left, or a kick whose
   * message is `BuildPlaytimeKickMessage` of the used minutes and the limit.
   */
  datatype PlaytimeNotice =
    | Warning(player: string, remainingMinutes: int)
    | Kick(player: string, usedMinutes: int, limitMinutes: int)

  /** At most five minutes are left, but some are. */
  predicate NearLimit(p: PlayerPlaytime) {
    0 < p.effectiveLimitMinutes - p.dailyUsedMinutes <= PLAYTIME_WARNING_WINDOW_MINUTES
  }

  /**
   * What one tick does for `player` once the store reports their state `updated`:
   * a warning with the minutes left when the limit is near, a kick when it is
   * reached, and nothing otherwise; never both.
   */
  function TickNotices(player: string, updated: PlayerPlaytime): (notices: seq<PlaytimeNotice>)
    ensures NearLimit(updated) ==>
              notices == [Warning(player, updated.effectiveLimitMinutes - updated.dailyUsedMinutes)]
    ensures LimitReached(updated) ==>
              notices == [Kick(player, updated.dailyUsedMinutes, updated.effectiveLimitMinutes)]
    ensures !NearLimit(updated) && !LimitReached(updated) ==> notices == []
  {
    var remaining := updated.effectiveLimitMinutes - updated.dailyUsedMinutes;
    var warning := if remaining > 0 && remaining <= PLAYTIME_WARNING_WINDOW_MINUTES
                   then [Warning(player, remaining)] else [];
    var kick := if LimitReached(updated)
                then [Kick(player, updated.dailyUsedMinutes, updated.effectiveLimitMinutes)]
                else [];
    warning + kick
  }

  /**
   * The notices one player contributes to a tick: the store is asked to add a
   * minute only when the player's sanitised name is not blank, and a failed
   * update is logged and the player skipped.
   */
  function PlayerNotices(player: string, update: Result<PlayerPlaytime, StoreError>): seq<PlaytimeNotice> {
    if IsBlank(Sanitized(player)) || update.Err? then [] else TickNotices(player, update.value)
  }

  /**
   * The notices of one tick over the online players, in order. `updates[i]` is
   * the store's answer to adding a minute for player `i`.
   */
  function TickAll(players: seq<string>, updates: seq<Result<PlayerPlaytime, StoreError>>)
    : (notices: seq<PlaytimeNotice>)
    requires |updates| == |players|
    ensures |notices| <= |players|
  {
    if players == [] then []
    else
      var k := |players| - 1;
      TickAll(players[..k], updates[..k]) + PlayerNotices(players[k], updates[k])
  }

  /** Player `i` is counted by a tick: their name is not blank once sanitised and the store added the minute. */
  predicate Tracked(players: seq<string>, updates: seq<Result<PlayerPlaytime, StoreError>>, i: int)
    requires |updates| == |players|
  {
    0 <= i < |players| && !IsBlank(Sanitized(players[i])) && updates[i].Ok?
  }

  /**
   * A tick's notices are exactly those of the tracked players: every notice is
   * one that a tracked player's update calls for, and every notice a tracked
   * player's update calls for is sent.
   */
  lemma TickAllNotices(players: seq<string>, updates: seq<Result<PlayerPlaytime, StoreError>>)
    requires |updates| == |players|
    ensures forall n :: n in TickAll(players, updates) ==>
              exists i :: Tracked(players, updates, i) && n in TickNotices(players[i], updates[i].value)
    ensures forall i, n :: Tracked(players, updates, i) && n in TickNotices(players[i], updates[i].value) ==>
              n in TickAll(players, updates)
  {
    TickAllFlattens(players, updates);
    forall n | n in TickAll(players, updates)
      ensures exists i :: Tracked(players, updates, i) && n in TickNotices(players[i], updates[i].value)
    {
      var i := NoticeSender(players, updates, n);
    }
    forall i, n | Tracked(players, updates, i) && n in TickNotices(players[i], updates[i].value)
      ensures n in TickAll(players, updates)
    {
      NoticeSent(players, updates, i, n);
    }
  }

  /** The tracked player whose update calls for a notice of the tick. */
  lemma NoticeSender(players: seq<string>, updates: seq<Result<PlayerPlaytime, StoreError>>, n: PlaytimeNotice)
    returns (i: int)
    requires |updates| == |players|
    requires n in Flatten(PlayerBlocks(players, updates))
    ensures Tracked(players, updates, i) && n in TickNotices(players[i], updates[i].value)
  {
    var blocks := PlayerBlocks(players, updates);
    FlattenMembers(blocks, n);
    i :| 0 <= i < |blocks| && n in blocks[i];
  }

  /** A notice that a tracked player's update calls for is among the blocks' notices. */
  lemma NoticeSent(players: seq<string>, updates: seq<Result<PlayerPlaytime, StoreError>>, i: int, n: PlaytimeNotice)
    requires |updates| == |players|
    requires Tracked(players, updates, i) && n in TickNotices(players[i], updates[i].value)
    ensures n in Flatten(PlayerBlocks(players, updates))
  {
    var blocks := PlayerBlocks(players, updates);
    assert n in blocks[i];
    FlattenMembers(blocks, n);
  }

  /** `PlayerNotices` in terms of the sanitised name that the tick computes once. */
  lemma PlayerNoticesNamed(player: string, update: Result<PlayerPlaytime, StoreError>, username: string)
    requires username == Sanitized(player)
    ensures PlayerNotices(player, update) ==
            if IsBlank(username) || update.Err? then [] else TickNotices(player, update.value)
  {
  }

  /** Each online player's notices, in the order of the players. */
  function PlayerBlocks(players: seq<string>, updates: seq<Result<PlayerPlaytime, StoreError>>)
    : (blocks: seq<seq<PlaytimeNotice>>)
    requires |updates| == |players|
    ensures |blocks| == |players|
    ensures forall i :: 0 <= i < |players| ==> blocks[i] == PlayerNotices(players[i], updates[i])
  {
    seq(|players|, i requires 0 <= i < |players| => PlayerNotices(players[i], updates[i]))
  }

  /** The blocks' notices, one block after another. */
  function Flatten(blocks: seq<seq<PlaytimeNotice>>): seq<PlaytimeNotice> {
    if blocks == [] then [] else Flatten(blocks[..|blocks| - 1]) + blocks[|blocks| - 1]
  }

  /** A notice is in the flattened blocks exactly when it is in one of them. */
  lemma {:induction false} FlattenMembers(blocks: seq<seq<PlaytimeNotice>>, n: PlaytimeNotice)
    ensures n in Flatten(blocks) <==> exists i :: 0 <= i < |blocks| && n in blocks[i]
  {
    if blocks != [] {
      var k := |blocks| - 1;
      var init := blocks[..k];
      FlattenMembers(init, n);
      assert forall i :: 0 <= i < k ==> init[i] == blocks[i];
      assert Flatten(blocks) == Flatten(init) + blocks[k];
    }
  }

  /** A tick's notices are its players' notices one after another. */
  lemma {:induction false} TickAllFlattens(players: seq<string>, updates: seq<Result<PlayerPlaytime, StoreError>>)
    requires |updates| == |players|
    ensures TickAll(players, updates) == Flatten(PlayerBlocks(players, updates))
  {
    if players != [] {
      var k := |players| - 1;
      TickAllFlattens(players[..k], updates[..k]);
      assert PlayerBlocks(players, updates)[..k] == PlayerBlocks(players[..k], updates[..k]);
    }
  }

  /** A tick over one more player adds that player's notices, if they are tracked; `username` is their sanitised name. */
  lemma TickAllStep(players: seq<string>, updates: seq<Result<PlayerPlaytime, StoreError>>, i: nat)
    requires |updates| == |players| && i < |players|
    ensures TickAll(players[..i + 1], updates[..i + 1]) ==
            TickAll(players[..i], updates[..i]) + PlayerNotices(players[i], updates[i])
  {
    assert players[..i + 1][..i] == players[..i] && updates[..i + 1][..i] == updates[..i];
  }

  /** The body of the tick for one player whose minute was added: warn, then kick, as the state calls for. */
  method NotifyPlayer(player: string, updated: PlayerPlaytime)
    returns (notices: seq<PlaytimeNotice>)
    ensures notices == TickNotices(player, updated)
  {
    notices := [];
    var remainingMinutes := updated.effectiveLimitMinutes - updated.dailyUsedMinutes;
    if remainingMinutes > 0 && remainingMinutes <= PLAYTIME_WARNING_WINDOW_MINUTES {
      notices := notices + [Warning(player, remainingMinutes)];
    }
    if updated.dailyUsedMinutes >= updated.effectiveLimitMinutes {
      notices := notices + [Kick(player, updated.dailyUsedMinutes, updated.effectiveLimitMinutes)];
    }
  }

  /**
   * `trackOnlinePlaytimeUsage`: once a minute, when the limit is on and the store
   * is open, adds a minute for every online player with a usable name and warns
   * or kicks as the updated state calls for.
   */
  method TrackOnlinePlaytimeUsage(config: PlaytimeConfig, storePresent: bool, players: seq<string>,
                                  updates: seq<Result<PlayerPlaytime, StoreError>>)
    returns (notices: seq<PlaytimeNotice>)
    requires |updates| == |players|
    ensures notices == if config.enabled && storePresent then TickAll(players, updates) else []
  {
    notices := [];
    if !config.enabled || !storePresent {
      return;
    }
    for i := 0 to |players|
      invariant notices == TickAll(players[..i], updates[..i])
    {
      var username := Sanitized(players[i]);
      // A blank name is skipped; a failed update is logged and the player skipped.
      var step := [];
      if !IsBlank(username) && updates[i].Ok? {
        step := NotifyPlayer(players[i], updates[i].value);
      }
      PlayerNoticesNamed(players[i], updates[i], username);
      TickAllStep(players, updates, i);
      notices := notices + step;
    }
    assert players[..|players|] == players && updates[..|updates|] == updates;
  }

  /**
   * Read against the store: the tick kicks a player exactly when the minute just
   * added brings the day's usage up to the effective limit, and warns exactly
   * when at most five minutes are left after it.
   */
  lemma TickAgainstStore(config: PlaytimeConfig, player: string, before: PlaytimeTable, date: string,
                         outcome: Result<PlayerPlaytime, StoreError>, after: PlaytimeTable)
    requires AddSpec(before, Sanitized(player), 1, date, DefaultPlaytimeLimitMinutes(config), outcome, after)
    requires outcome.Ok?
    ensures LimitReached(outcome.value) <==>
            UsedOn(before, Sanitized(player), date) + 1 >= outcome.value.effectiveLimitMinutes
    ensures NearLimit(outcome.value) <==>
            0 < outcome.value.effectiveLimitMinutes - (UsedOn(before, Sanitized(player), date) + 1) <= 5
  {
    AddWithinDay(before, Sanitized(player), 1, date, DefaultPlaytimeLimitMinutes(config), outcome, after);
  }

  // ---------------------------------------------------------------------------
  // Login and join
  // ---------------------------------------------------------------------------

  /**
   * `getPlayerPlaytime`: the store's state for the user (`lookup`, the answer of
   * loading the day's row), or None when the limit is off, the store is missing,
   * the name is blank or the store fails.
   */
  function PlayerPlaytimeOf(config: PlaytimeConfig, storePresent: bool, username: string,
                            lookup: Result<PlayerPlaytime, StoreError>): (r: Option<PlayerPlaytime>)
    ensures r.Some? <==> config.enabled && storePresent && !IsBlank(username) && lookup.Ok?
    ensures r.Some? ==> r.value == lookup.value
  {
    if !config.enabled || !storePresent || IsBlank(username) then None
    else if lookup.Err? then None
    else Some(lookup.value)
  }

  /** The kick message for a player whose state shows the limit reached, None otherwise. */
  function KickIfReached(config: PlaytimeConfig, playtime: Option<PlayerPlaytime>): (kick: Option<string>)
    ensures kick.Some? <==> playtime.Some? && LimitReached(playtime.value)
  {
    match playtime
    case Some(p) =>
      if LimitReached(p) then Some(BuildPlaytimeKickMessage(config, p.dailyUsedMinutes, p.effectiveLimitMinutes))
      else None
    case None => None
  }

  /** `onPlayerLogin`: the message the login is refused with, if any. */
  function OnPlayerLogin(config: PlaytimeConfig, storePresent: bool, playerName: string,
                         lookup: Result<PlayerPlaytime, StoreError>): (refusal: Option<string>)
  {
    if !config.enabled then None
    else
      var username := Sanitized(playerName);
      if IsBlank(username) then None
      else KickIfReached(config, PlayerPlaytimeOf(config, storePresent, username, lookup))
  }

  /** `enforcePlaytimeLimit`, run when a player joins: the kick message, if any. */
  function EnforcePlaytimeLimit(config: PlaytimeConfig, storePresent: bool, playerName: string,
                                lookup: Result<PlayerPlaytime, StoreError>): (kick: Option<string>)
  {
    if !config.enabled then None
    else KickIfReached(config, PlayerPlaytimeOf(config, storePresent, Sanitized(playerName), lookup))
  }

  /**
   * A login is refused exactly when the limit is on, the store reports the day's
   * row and the limit is reached; a join kicks in exactly the same cases, with
   * the same message.
   */
  lemma LoginRefusedIffReached(config: PlaytimeConfig, storePresent: bool, playerName: string,
                               lookup: Result<PlayerPlaytime, StoreError>)
    ensures OnPlayerLogin(config, storePresent, playerName, lookup).Some? <==>
            config.enabled && storePresent && !IsBlank(Sanitized(playerName)) && lookup.Ok? && LimitReached(lookup.value)
    ensures OnPlayerLogin(config, storePresent, playerName, lookup).Some? ==>
            OnPlayerLogin(config, storePresent, playerName, lookup).value ==
            BuildPlaytimeKickMessage(config, lookup.value.dailyUsedMinutes, lookup.value.effectiveLimitMinutes)
    ensures EnforcePlaytimeLimit(config, storePresent, playerName, lookup) ==
            OnPlayerLogin(config, storePresent, playerName, lookup)
  {
  }

  /** Read against the store: a login is refused when the day's stored usage has reached the effective limit. */
  lemma LoginAgainstStore(config: PlaytimeConfig, storePresent: bool, playerName: string, before: PlaytimeTable,
                          date: string, lookup: Result<PlayerPlaytime, StoreError>, after: PlaytimeTable)
    requires config.enabled && storePresent && !IsBlank(Sanitized(playerName))
    requires GetOrCreateSpec(before, Sanitized(playerName), date, DefaultPlaytimeLimitMinutes(config), lookup, after)
    requires lookup.Ok?
    ensures OnPlayerLogin(config, storePresent, playerName, lookup).Some? <==>
            UsedOn(before, Sanitized(playerName), date) >= lookup.value.effectiveLimitMinutes
    ensures !HasRowFor(before, Sanitized(playerName), date) && lookup.value.limitOverrideMinutes.None? ==>
              OnPlayerLogin(config, storePresent, playerName, lookup).None?
  {
    LoginRefusedIffReached(config, storePresent, playerName, lookup);
  }
}
