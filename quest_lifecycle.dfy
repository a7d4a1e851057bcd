/**
 * The vocabulary quest as the plugin runs it: starting a quest for the online
 * players, judging answers, ending a quest on a correct answer or a timeout,
 * and scheduling the next one. The Bukkit scheduler is modelled by the state it
 * holds: the armed quest timeout (with the quest it expects) and the delay of
 * the pending scheduled start. The random numbers the plugin draws are
 * parameters: `roll` for `random.nextInt(421)` and `draw` for `random.nextDouble()`.
 */
module QuestLifecycle {
  import opened Wrappers
  import opened JavaText
  import opened StoreModel
  import opened Store
  import opened PluginInput
  import PlaytimeStore
  import Playtime

  const QUEST_DELAY_MIN_SECONDS: int := 3 * 60
  const QUEST_DELAY_MAX_SECONDS: int := 10 * 60
  /** The bound passed to `random.nextInt` when scheduling: 421 possible delays. */
  const QUEST_DELAY_BOUND: int := QUEST_DELAY_MAX_SECONDS - QUEST_DELAY_MIN_SECONDS + 1
  const MIN_VOCAB_ENTRIES_FOR_TIMER_QUESTS: int := 10
  const MAX_ANSWER_LENGTH: int := 64

  /** The quest being asked: the table, the German word and the expected answer. */
  datatype ActiveQuest = ActiveQuest(vocabTable: string, deWord: string, answer: string)

  /** `isSameQuest`: two quests are the same when all three parts are equal. */
  function IsSameQuest(a: ActiveQuest, b: ActiveQuest): (same: bool)
    ensures same <==> a == b
  {
    a.vocabTable == b.vocabTable && a.deWord == b.deWord && a.answer == b.answer
  }

  // ---------------------------------------------------------------------------
  // Scheduling
  // ---------------------------------------------------------------------------

  /** The delay `scheduleNextQuest` picks, in seconds, from the value `roll` of `random.nextInt(421)`. */
  function QuestDelaySeconds(roll: int): (delay: int)
    requires 0 <= roll < QUEST_DELAY_BOUND
    ensures QUEST_DELAY_MIN_SECONDS <= delay <= QUEST_DELAY_MAX_SECONDS
  {
    QUEST_DELAY_MIN_SECONDS + roll
  }

  /** Every delay from three to ten minutes can be drawn, each by exactly one roll. */
  lemma EveryDelayReachable(delay: int)
    requires QUEST_DELAY_MIN_SECONDS <= delay <= QUEST_DELAY_MAX_SECONDS
    ensures exists roll :: 0 <= roll < QUEST_DELAY_BOUND && QuestDelaySeconds(roll) == delay
    ensures forall r1, r2 ::
              (0 <= r1 < QUEST_DELAY_BOUND && 0 <= r2 < QUEST_DELAY_BOUND &&
               QuestDelaySeconds(r1) == delay && QuestDelaySeconds(r2) == delay) ==> r1 == r2
  {
    assert QuestDelaySeconds(delay - QUEST_DELAY_MIN_SECONDS) == delay;
  }

  // ---------------------------------------------------------------------------
  // Starting a quest
  // ---------------------------------------------------------------------------

  /**
   * What a start attempt does: nothing (a quest is running or there is no store),
   * defer to the next scheduled start, or start the quest.
   */
  datatype StartDecision = Refused | Deferred | Started(quest: ActiveQuest)

  /** `hasMinimumVocabularyForTimerQuests`: at least ten rows over both tables, and the count did not fail. */
  predicate EnoughVocabulary(db: Db, countFault: bool) {
    !countFault && db.TotalVocabularyEntries() >= MIN_VOCAB_ENTRIES_FOR_TIMER_QUESTS
  }

  /**
   * `startVocabularyQuest(timerTriggered)` as a decision: `db` is the store's
   * state (None when the store is missing), `countFault` and `selectFault` say
   * whether counting or selecting throws.
   */
  function StartOf(active: Option<ActiveQuest>, timerTriggered: bool, countFault: bool, onlinePlayers: seq<string>,
                   selectFault: bool, db: Option<Db>, draw: real): StartDecision
  {
    if active.Some? || db.None? then Refused
    else if timerTriggered && !EnoughVocabulary(db.value, countFault) then Deferred
    else if onlinePlayers == [] then Deferred
    else if selectFault then Deferred
    else
      match SelectQuest(db.value, onlinePlayers, draw)
      case None => Deferred
      case Some(entry) => Started(ActiveQuest(entry.vocabTable, entry.deWord, entry.answer))
  }

  /**
   * The gates of a start: it is refused exactly when a quest runs or the store
   * is missing; otherwise it starts exactly when a timed start finds ten rows,
   * someone is online, the selection succeeds and some row has an eligible
   * online player — and is deferred in every other case.
   */
  lemma StartGates(active: Option<ActiveQuest>, timerTriggered: bool, countFault: bool, onlinePlayers: seq<string>,
                   selectFault: bool, db: Option<Db>, draw: real)
    ensures StartOf(active, timerTriggered, countFault, onlinePlayers, selectFault, db, draw).Refused? <==>
            active.Some? || db.None?
    ensures StartOf(active, timerTriggered, countFault, onlinePlayers, selectFault, db, draw).Started? <==>
            && active.None? && db.Some?
            && (!timerTriggered || EnoughVocabulary(db.value, countFault))
            && onlinePlayers != [] && !selectFault
            && exists c :: c in Candidates(db.value) &&
                 EligibleCount(onlinePlayers, RewardedKeys(db.value.rewards, onlinePlayers), c.vocabTable, c.deWord) > 0
  {
    if db.Some? {
      SelectQuestNone(db.value, onlinePlayers, draw);
    }
  }

  /**
   * A started quest is a row of one of the tables, and no row has more online
   * players who can still be rewarded for it.
   */
  lemma StartedQuestIsBest(active: Option<ActiveQuest>, timerTriggered: bool, countFault: bool,
                           onlinePlayers: seq<string>, selectFault: bool, db: Option<Db>, draw: real)
    requires StartOf(active, timerTriggered, countFault, onlinePlayers, selectFault, db, draw).Started?
    ensures var q := StartOf(active, timerTriggered, countFault, onlinePlayers, selectFault, db, draw).quest;
            var keys := RewardedKeys(db.value.rewards, onlinePlayers);
            exists c :: c in Candidates(db.value) && c.vocabTable == q.vocabTable && c.deWord == q.deWord
                        && c.answer == q.answer
                        && EligibleCount(onlinePlayers, keys, q.vocabTable, q.deWord) > 0
                        && forall d :: d in Candidates(db.value) ==>
                             EligibleCount(onlinePlayers, keys, d.vocabTable, d.deWord) <=
                             EligibleCount(onlinePlayers, keys, q.vocabTable, q.deWord)
  {
    SelectQuestSome(db.value, onlinePlayers, draw);
    var e := SelectQuest(db.value, onlinePlayers, draw).value;
    assert e.(eligibleOnlinePlayers := 0) in Candidates(db.value);
  }

  // ---------------------------------------------------------------------------
  // Answers
  // ---------------------------------------------------------------------------

  /** What `handleQuestAnswer` tells the player. */
  datatype AnswerReply = NoActiveQuest | EmptyAnswer | Wrong | AlreadyRewarded | Rewarded

  /** The answer was compared with the quest's, and so an attempt is recorded. */
  predicate Evaluated(reply: AnswerReply) {
    reply.Wrong? || reply.AlreadyRewarded? || reply.Rewarded?
  }

  /**
   * `handleQuestAnswer` as a decision: `alreadyRewarded` says whether the player
   * already has the reward row for the running quest.
   */
  function AnswerVerdict(active: Option<ActiveQuest>, rawAnswer: string, alreadyRewarded: bool): AnswerReply {
    if active.None? then NoActiveQuest
    else
      var submitted := NormalizeAnswer(rawAnswer);
      if submitted == [] then EmptyAnswer
      else if submitted != NormalizeAnswer(active.value.answer) then Wrong
      else if alreadyRewarded then AlreadyRewarded
      else Rewarded
  }

  /**
   * An answer is judged correct exactly when, trimmed and lower-cased, it is
   * non-empty and equal to the quest's answer treated alike; a correct answer is
   * rewarded exactly when the player has no reward for the word yet.
   */
  lemma AnswerCorrectness(active: Option<ActiveQuest>, rawAnswer: string, alreadyRewarded: bool)
    ensures var reply := AnswerVerdict(active, rawAnswer, alreadyRewarded);
            && (reply.NoActiveQuest? <==> active.None?)
            && (reply.AlreadyRewarded? || reply.Rewarded? <==>
                  active.Some? && NormalizeAnswer(rawAnswer) != [] &&
                  NormalizeAnswer(rawAnswer) == NormalizeAnswer(active.value.answer))
            && (reply.Rewarded? <==> (reply.AlreadyRewarded? || reply.Rewarded?) && !alreadyRewarded)
  {
  }

  /** Case and surrounding blanks never change how an answer is judged. */
  lemma AnswerIgnoresCaseAndBlanks(active: Option<ActiveQuest>, rawAnswer: string, alreadyRewarded: bool)
    ensures AnswerVerdict(active, ToLower(rawAnswer), alreadyRewarded) == AnswerVerdict(active, rawAnswer, alreadyRewarded)
    ensures AnswerVerdict(active, Trim(rawAnswer), alreadyRewarded) == AnswerVerdict(active, rawAnswer, alreadyRewarded)
  {
    NormalizeAnswerCanonical(rawAnswer);
  }

  /** What the private-message handler makes of a command line. */
  datatype PrivateMessage =
    | NotForPlugin
    | MissingAnswer
    | AnswerTooLong
    | Answer(text: string)

  /**
   * `onPrivateMessageCommand` before it hands over: not a message to the bot, a
   * blank answer, one over 64 UTF-16 code units once sanitised, or the sanitised answer.
   */
  function ClassifyPrivateMessage(message: string): (m: PrivateMessage)
    ensures m.Answer? ==> 0 < |m.text| <= Utf16Length(m.text) <= MAX_ANSWER_LENGTH && IsTrimmed(m.text)
    ensures m.Answer? ==> forall c :: c in m.text ==> !IsIsoControl(c)
  {
    match ParsePrivatePluginAnswer(message)
    case None => NotForPlugin
    case Some(raw) =>
      var sanitized := Sanitized(raw);
      if IsBlank(sanitized) then MissingAnswer
      else if Utf16Length(sanitized) > MAX_ANSWER_LENGTH then AnswerTooLong
      else Answer(sanitized)
  }

  /** A private message reaches the quest exactly when it is addressed to the bot and carries a usable answer. */
  lemma PrivateMessageReachesQuest(message: string)
    ensures ClassifyPrivateMessage(message).NotForPlugin? <==> ParsePrivatePluginAnswer(message).None?
    ensures ClassifyPrivateMessage(message).Answer? <==>
            && ParsePrivatePluginAnswer(message).Some?
            && !IsBlank(Sanitized(ParsePrivatePluginAnswer(message).value))
            && Utf16Length(Sanitized(ParsePrivatePluginAnswer(message).value)) <= MAX_ANSWER_LENGTH
  {
  }

  /**
   * The limit counts UTF-16 code units, as `String.length()` does: an answer of
   * more than 32 characters beyond U+FFFF (emoji, say) is too long.
   */
  lemma SupplementaryAnswerTooLong(message: string)
    requires ParsePrivatePluginAnswer(message).Some?
    requires var s := Sanitized(ParsePrivatePluginAnswer(message).value);
             !IsBlank(s) && 2 * |s| > MAX_ANSWER_LENGTH && forall i :: 0 <= i < |s| ==> s[i] as int >= 0x1_0000
    ensures ClassifyPrivateMessage(message) == AnswerTooLong
  {
  }

  /** Registration at join uses the trimmed name, login the sanitised one: they agree on names without control characters. */
  lemma JoinAndLoginRegisterAlike(name: string)
    requires forall c :: c in name ==> !IsIsoControl(c)
    ensures Trim(name) == Sanitized(name)
  {
    StripControlsClean(name);
  }

  // ---------------------------------------------------------------------------
  // The plugin object
  // ---------------------------------------------------------------------------

  /** The plugin's quest and playtime state; the store is the one opened when the plugin was enabled, if any. */
  class VocabularyQuestPlugin {
    const store: SQLiteStore?
    /** `activeQuest`. */
    var activeQuest: Option<ActiveQuest>
    /** The armed `questTimeoutTask`, with the quest it will end. */
    var questTimeout: Option<ActiveQuest>
    /** The delay in seconds of the pending `scheduledQuestTask`, if any. */
    var scheduledQuestDelay: Option<int>
    /** The players given an emerald, in order. */
    var emeraldsGiven: seq<string>

    /** A running quest has a store and exactly one armed timeout, for itself; without a quest no timeout is armed. */
    predicate Valid()
      reads this
    {
      questTimeout == activeQuest && (activeQuest.Some? ==> store != null)
    }

    /** The store's relations, or None when there is no store. */
    function StoreDb(): Option<Db>
      reads this, store
    {
      if store == null then None else Some(store.State())
    }

    /** The player already holds the reward for the running quest's word. */
    function HoldsReward(player: string): bool
      reads this, store
    {
      activeQuest.Some? && store != null &&
      RewardRow(player, activeQuest.value.vocabTable, activeQuest.value.deWord) in store.rewards
    }

    constructor (store: SQLiteStore?)
      ensures this.store == store && activeQuest == None && questTimeout == None
      ensures scheduledQuestDelay == None && emeraldsGiven == []
      ensures Valid()
    {
      this.store := store;
      activeQuest := None;
      questTimeout := None;
      scheduledQuestDelay := None;
      emeraldsGiven := [];
    }

    /** `scheduleNextQuest`: replaces any pending start by one in three to ten minutes. */
    method ScheduleNextQuest(roll: int)
      requires 0 <= roll < QUEST_DELAY_BOUND
      modifies this`scheduledQuestDelay
      ensures scheduledQuestDelay == Some(QuestDelaySeconds(roll))
    {
      var delaySeconds := QUEST_DELAY_MIN_SECONDS + roll;
      scheduledQuestDelay := Some(delaySeconds);
    }

    /** `finishQuest`: no quest runs, its timeout is cancelled and the next start is scheduled. */
    method FinishQuest(roll: int)
      requires 0 <= roll < QUEST_DELAY_BOUND
      modifies this`activeQuest, this`questTimeout, this`scheduledQuestDelay
      ensures activeQuest == None && questTimeout == None && scheduledQuestDelay == Some(QuestDelaySeconds(roll))
      ensures Valid()
    {
      activeQuest := None;
      questTimeout := None;
      ScheduleNextQuest(roll);
    }

    /** `hasMinimumVocabularyForTimerQuests`. */
    method HasMinimumVocabularyForTimerQuests(countFault: bool) returns (enough: bool)
      requires store != null
      ensures enough == EnoughVocabulary(store.State(), countFault)
    {
      if countFault {
        return false;
      }
      var totalEntries := |store.deEn| + |store.deFr|;
      enough := totalEntries >= MIN_VOCAB_ENTRIES_FOR_TIMER_QUESTS;
    }

    /**
     * `startVocabularyQuest(timerTriggered)`: a deferred start schedules the next
     * one; a started quest is the selected row, with its timeout armed for it.
     */
    method StartVocabularyQuest(timerTriggered: bool, onlinePlayers: seq<string>, countFault: bool,
                                selectFault: bool, draw: real, roll: int)
      returns (started: bool)
      requires Valid() && 0 <= roll < QUEST_DELAY_BOUND
      modifies this`activeQuest, this`questTimeout, this`scheduledQuestDelay
      ensures Valid()
      ensures var d := StartOf(old(activeQuest), timerTriggered, countFault, onlinePlayers, selectFault, StoreDb(), draw);
              && started == d.Started?
              && activeQuest == (if d.Started? then Some(d.quest) else old(activeQuest))
              && scheduledQuestDelay == (if d.Deferred? then Some(QuestDelaySeconds(roll)) else old(scheduledQuestDelay))
    {
      if activeQuest.Some? || store == null {
        return false;
      }
      if timerTriggered {
        var enough := HasMinimumVocabularyForTimerQuests(countFault);
        if !enough {
          ScheduleNextQuest(roll);
          return false;
        }
      }
      if onlinePlayers == [] {
        ScheduleNextQuest(roll);
        return false;
      }
      if selectFault {
        ScheduleNextQuest(roll);
        return false;
      }
      var entry := store.SelectWeightedQuestForOnlinePlayers(onlinePlayers, draw);
      if entry.None? {
        ScheduleNextQuest(roll);
        return false;
      }
      questTimeout := None;
      activeQuest := Some(ActiveQuest(entry.value.vocabTable, entry.value.deWord, entry.value.answer));
      questTimeout := activeQuest;
      started := true;
    }

    /** The scheduled start fires: the pending task is cleared and a timed start is attempted. */
    method OnScheduledQuestDue(onlinePlayers: seq<string>, countFault: bool, selectFault: bool, draw: real, roll: int)
      returns (started: bool)
      requires Valid() && 0 <= roll < QUEST_DELAY_BOUND
      modifies this`activeQuest, this`questTimeout, this`scheduledQuestDelay
      ensures Valid()
      ensures var d := StartOf(old(activeQuest), true, countFault, onlinePlayers, selectFault, StoreDb(), draw);
              && started == d.Started?
              && activeQuest == (if d.Started? then Some(d.quest) else old(activeQuest))
              && scheduledQuestDelay == (if d.Deferred? then Some(QuestDelaySeconds(roll)) else None)
    {
      scheduledQuestDelay := None;
      started := StartVocabularyQuest(true, onlinePlayers, countFault, selectFault, draw, roll);
    }

    /**
     * The effect of handling `player`'s answer that was judged `reply`: an evaluated
     * answer adds one attempt row; a correct one claims the reward row; a rewarded
     * one gives one emerald and ends the quest; nothing else changes.
     */
    twostate predicate AnswerEffects(player: string, reply: AnswerReply, roll: int)
      requires 0 <= roll < QUEST_DELAY_BOUND
      reads this, store
    {
      && (store != null ==>
            && store.users == old(store.users) && store.deEn == old(store.deEn) && store.deFr == old(store.deFr)
            && (if Evaluated(reply) && old(activeQuest).Some? then
                  var q := old(activeQuest).value;
                  && store.attempts == old(store.attempts) + [Attempt(player, q.vocabTable, q.deWord, !reply.Wrong?)]
                  && store.rewards == (if reply.Wrong? then old(store.rewards)
                                       else old(store.rewards) + {RewardRow(player, q.vocabTable, q.deWord)})
                else store.attempts == old(store.attempts) && store.rewards == old(store.rewards)))
      && (if reply.Rewarded? then
            && emeraldsGiven == old(emeraldsGiven) + [player]
            && activeQuest == None && questTimeout == None
            && scheduledQuestDelay == Some(QuestDelaySeconds(roll))
          else
            && emeraldsGiven == old(emeraldsGiven) && activeQuest == old(activeQuest)
            && questTimeout == old(questTimeout) && scheduledQuestDelay == old(scheduledQuestDelay))
    }

    /** `handleQuestAnswer`. */
    method HandleQuestAnswer(player: string, rawAnswer: string, roll: int) returns (reply: AnswerReply)
      requires Valid() && 0 <= roll < QUEST_DELAY_BOUND
      modifies this`activeQuest, this`questTimeout, this`scheduledQuestDelay, this`emeraldsGiven
      modifies store
      ensures Valid()
      ensures reply == AnswerVerdict(old(activeQuest), rawAnswer, old(HoldsReward(player)))
      ensures AnswerEffects(player, reply, roll)
    {
      if activeQuest.None? {
        return NoActiveQuest;
      }
      var quest := activeQuest.value;
      var submitted := NormalizeAnswer(rawAnswer);
      if submitted == [] {
        return EmptyAnswer;
      }
      var correct := submitted == NormalizeAnswer(quest.answer);
      store.RecordAttempt(player, quest.vocabTable, quest.deWord, correct);
      if !correct {
        return Wrong;
      }
      var rewarded := store.ClaimReward(player, quest.vocabTable, quest.deWord);
      if rewarded {
        emeraldsGiven := emeraldsGiven + [player];
        FinishQuest(roll);
        reply := Rewarded;
      } else {
        reply := AlreadyRewarded;
      }
    }

    /** `onPrivateMessageCommand`: a usable answer addressed to the bot is handed to the quest; anything else changes nothing. */
    method OnPrivateMessageCommand(player: string, message: string, roll: int)
      returns (handled: PrivateMessage, reply: Option<AnswerReply>)
      requires Valid() && 0 <= roll < QUEST_DELAY_BOUND
      modifies this`activeQuest, this`questTimeout, this`scheduledQuestDelay, this`emeraldsGiven
      modifies store
      ensures Valid()
      ensures handled == ClassifyPrivateMessage(message)
      ensures reply.Some? <==> handled.Answer?
      ensures handled.Answer? ==>
                reply.value == AnswerVerdict(old(activeQuest), handled.text, old(HoldsReward(player)))
                && AnswerEffects(player, reply.value, roll)
      ensures !handled.Answer? ==> AnswerEffects(player, NoActiveQuest, roll)
    {
      var answer := ParsePrivatePluginAnswer(message);
      if answer.None? {
        return NotForPlugin, None;
      }
      var sanitizedAnswer := SanitizeUserInput(answer.value);
      if IsBlank(sanitizedAnswer) {
        return MissingAnswer, None;
      }
      if Utf16Length(sanitizedAnswer) > MAX_ANSWER_LENGTH {
        return AnswerTooLong, None;
      }
      handled := Answer(sanitizedAnswer);
      var r := HandleQuestAnswer(player, sanitizedAnswer, roll);
      reply := Some(r);
    }

    /** `onQuestTimeout(expectedQuest)`: ends the quest only if it is still the one the timeout was armed for. */
    method OnQuestTimeout(expectedQuest: ActiveQuest, roll: int) returns (ended: bool)
      requires Valid() && 0 <= roll < QUEST_DELAY_BOUND
      modifies this`activeQuest, this`questTimeout, this`scheduledQuestDelay
      ensures Valid()
      ensures ended <==> old(activeQuest) == Some(expectedQuest)
      ensures ended ==> activeQuest == None && scheduledQuestDelay == Some(QuestDelaySeconds(roll))
      ensures !ended ==> activeQuest == old(activeQuest) && scheduledQuestDelay == old(scheduledQuestDelay)
    {
      if activeQuest.None? {
        return false;
      }
      if !IsSameQuest(activeQuest.value, expectedQuest) {
        return false;
      }
      FinishQuest(roll);
      ended := true;
    }

    /** `registerPlayerForPlaytime`: the trimmed name is recorded as a user, when there is a store and the name is not blank. */
    method RegisterPlayerForPlaytime(username: string)
      modifies store
      ensures store != null ==>
                store.State() == old(store.State()).(users := if IsBlank(username) then old(store.users)
                                                              else old(store.users) + {Trim(username)})
    {
      if store == null || IsBlank(username) {
        return;
      }
      var normalized := Trim(username);
      store.UpsertUser(normalized);
    }

    /**
     * `onPlayerLogin`: with the limit on and a usable name, the player is
     * registered and the login is refused when the day's limit is reached.
     * `lookup` is the store's answer when loading the day's playtime row.
     */
    method OnPlayerLogin(config: Playtime.PlaytimeConfig, playerName: string,
                         lookup: Result<PlaytimeStore.PlayerPlaytime, StoreError>)
      returns (refusal: Option<string>)
      modifies store
      ensures refusal == Playtime.OnPlayerLogin(config, store != null, playerName, lookup)
      ensures store != null ==>
                store.State() == old(store.State()).(users := if config.enabled && !IsBlank(Sanitized(playerName))
                                                              then old(store.users) + {Sanitized(playerName)}
                                                              else old(store.users))
    {
      if !config.enabled {
        return None;
      }
      var username := SanitizeUserInput(playerName);
      if IsBlank(username) {
        return None;
      }
      RegisterPlayerForPlaytime(username);
      var playtime := Playtime.PlayerPlaytimeOf(config, store != null, username, lookup);
      refusal := Playtime.KickIfReached(config, playtime);
    }

    /**
     * `onPlayerJoin`: the player is registered under the trimmed name whether or
     * not the limit is on, then kicked when the limit is on and reached.
     */
    method OnPlayerJoin(config: Playtime.PlaytimeConfig, playerName: string,
                        lookup: Result<PlaytimeStore.PlayerPlaytime, StoreError>)
      returns (kick: Option<string>)
      modifies store
      ensures kick == Playtime.EnforcePlaytimeLimit(config, store != null, playerName, lookup)
      ensures store != null ==>
                store.State() == old(store.State()).(users := if IsBlank(playerName) then old(store.users)
                                                              else old(store.users) + {Trim(playerName)})
    {
      RegisterPlayerForPlaytime(playerName);
      if !config.enabled {
        return None;
      }
      var username := SanitizeUserInput(playerName);
      var playtime := Playtime.PlayerPlaytimeOf(config, store != null, username, lookup);
      kick := Playtime.KickIfReached(config, playtime);
    }
  }
}
