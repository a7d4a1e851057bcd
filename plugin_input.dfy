/**
 * The plugin's handling of text typed by players and operators: removing
 * control characters, normalising answers, recognising a private message to
 * the quest bot, and reading minute counts.
 */
module PluginInput {
  import opened Wrappers
  import opened JavaText

  // ---------------------------------------------------------------------------
  // sanitizeUserInput
  // ---------------------------------------------------------------------------

  /** The characters of `s` that are not ISO control characters, in order. */
  function StripControls(s: string): (r: string)
    ensures |r| <= |s|
    ensures forall c :: c in r ==> c in s && !IsIsoControl(c)
  {
    if s == [] then []
    else
      var init := StripControls(s[..|s| - 1]);
      var last := s[|s| - 1];
      assert forall c :: c in s[..|s| - 1] ==> c in s;
      if IsIsoControl(last) then init else init + [last]
  }

  /** What `sanitizeUserInput` returns: the control-free characters, trimmed. */
  function Sanitized(s: string): (r: string)
    ensures IsTrimmed(r)
    ensures forall c :: c in r ==> c in s && !IsIsoControl(c)
  {
    TrimKeepsCharacters(StripControls(s));
    Trim(StripControls(s))
  }

  /** `sanitizeUserInput`: copies the non-control characters into a builder, then trims. */
  method SanitizeUserInput(input: string) returns (r: string)
    ensures r == Sanitized(input)
  {
    var builder: string := [];
    for i := 0 to |input|
      invariant builder == StripControls(input[..i])
    {
      assert input[..i + 1][..i] == input[..i];
      if !IsIsoControl(input[i]) {
        builder := builder + [input[i]];
      }
    }
    assert input[..|input|] == input;
    r := Trim(builder);
  }

  /** Text without control characters is left as it is by the filter. */
  lemma {:induction false} StripControlsClean(s: string)
    requires forall c :: c in s ==> !IsIsoControl(c)
    ensures StripControls(s) == s
  {
    if s != [] {
      var init := s[..|s| - 1];
      assert forall c :: c in init ==> c in s;
      StripControlsClean(init);
      assert s == init + [s[|s| - 1]];
    }
  }

  /** Sanitising sanitised text changes nothing. */
  lemma SanitizeIdempotent(s: string)
    ensures Sanitized(Sanitized(s)) == Sanitized(s)
  {
    StripControlsClean(Sanitized(s));
  }

  // ---------------------------------------------------------------------------
  // normalizeAnswer
  // ---------------------------------------------------------------------------

  /** `normalizeAnswer`: trimmed, then lower-cased. */
  function NormalizeAnswer(answer: string): (r: string)
    ensures IsTrimmed(r) && |r| <= |answer|
    ensures forall i :: 0 <= i < |r| ==> !('A' <= r[i] <= 'Z')
  {
    ToLowerTrimmed(Trim(answer));
    ToLower(Trim(answer))
  }

  /** Lower-casing a character never turns it into, or out of, one that `trim()` removes. */
  lemma {:induction false} TrimStartToLower(s: string)
    ensures TrimStart(ToLower(s)) == ToLower(TrimStart(s))
    decreases |s|
  {
    if s != [] {
      assert ToLower(s)[1..] == ToLower(s[1..]);
      TrimStartToLower(s[1..]);
    }
  }

  lemma {:induction false} TrimEndToLower(s: string)
    ensures TrimEnd(ToLower(s)) == ToLower(TrimEnd(s))
    decreases |s|
  {
    if s != [] {
      assert ToLower(s)[..|s| - 1] == ToLower(s[..|s| - 1]);
      TrimEndToLower(s[..|s| - 1]);
    }
  }

  /**
   * Answers are compared without regard to ASCII case or surrounding blanks:
   * normalising is idempotent, ignores a prior lower-casing, and two answers
   * that differ only in those respects normalise alike.
   */
  lemma NormalizeAnswerCanonical(a: string)
    ensures NormalizeAnswer(NormalizeAnswer(a)) == NormalizeAnswer(a)
    ensures NormalizeAnswer(ToLower(a)) == NormalizeAnswer(a)
    ensures NormalizeAnswer(Trim(a)) == NormalizeAnswer(a)
  {
    ToLowerTrimmed(Trim(a));
    TrimStartToLower(a);
    TrimEndToLower(TrimStart(a));
  }

  // ---------------------------------------------------------------------------
  // parsePrivatePluginAnswer
  // ---------------------------------------------------------------------------

  /** The position of the first `\s` character of `s`, or |s| when there is none. */
  function FirstSpace(s: string): (i: nat)
    ensures i <= |s|
    ensures forall k :: 0 <= k < i ==> !IsRegexSpace(s[k])
    ensures i < |s| ==> IsRegexSpace(s[i])
  {
    if s == [] || IsRegexSpace(s[0]) then 0 else 1 + FirstSpace(s[1..])
  }

  /** The position after the run of `\s` characters that starts at `i`. */
  function SkipSpaces(s: string, i: nat): (j: nat)
    requires i <= |s|
    ensures i <= j <= |s|
    ensures forall k :: i <= k < j ==> IsRegexSpace(s[k])
    ensures j < |s| ==> !IsRegexSpace(s[j])
    decreases |s| - i
  {
    if i < |s| && IsRegexSpace(s[i]) then SkipSpaces(s, i + 1) else i
  }

  /**
   * `s.split("\\s+", limit)` for a positive limit: at most `limit` parts; the
   * last part is the unsplit remainder; empty parts are kept.
   */
  function SplitOnSpaces(s: string, limit: nat): (parts: seq<string>)
    requires limit >= 1
    ensures 1 <= |parts| <= limit
    decreases limit
  {
    var i := FirstSpace(s);
    if limit == 1 || i == |s| then [s]
    else [s[..i]] + SplitOnSpaces(s[SkipSpaces(s, i)..], limit - 1)
  }

  /** The commands that send a private message. */
  predicate IsMessageCommand(word: string) {
    word == "msg" || word == "tell" || word == "w"
  }

  /** The names the quest bot answers to. */
  predicate IsPluginTarget(word: string) {
    word == "jenkins" || word == "vocabularyquest" || word == "vocabularyquestplugin"
  }

  /**
   * `parsePrivatePluginAnswer`: for "/<command> <target> <answer>" with a
   * message command and a bot name (both without regard to case), the trimmed
   * answer, or "" when no answer follows; None for anything else.
   */
  function ParsePrivatePluginAnswer(message: string): (r: Option<string>)
    ensures r.Some? ==> message != [] && message[0] == '/' && IsTrimmed(r.value)
  {
    if IsBlank(message) || message[0] != '/' then None
    else
      var parts := SplitOnSpaces(Trim(message[1..]), 3);
      if |parts| < 2 then None
      else if !IsMessageCommand(ToLower(parts[0])) then None
      else if !IsPluginTarget(ToLower(parts[1])) then None
      else if |parts| >= 3 then Some(Trim(parts[2]))
      else Some("")
  }

  /** A non-empty word without `\s` characters. */
  predicate IsWord(w: string) {
    w != [] && forall k :: 0 <= k < |w| ==> !IsRegexSpace(w[k])
  }

  /** Splitting a word followed by a space and more text separates the word. */
  lemma SplitWord(w: string, rest: string, limit: nat)
    requires IsWord(w) && limit >= 2
    requires rest != [] && !IsRegexSpace(rest[0])
    ensures SplitOnSpaces(w + " " + rest, limit) == [w] + SplitOnSpaces(rest, limit - 1)
  {
    var s := w + " " + rest;
    assert s[|w|] == ' ';
    assert FirstSpace(s) == |w| by {
      assert forall k :: 0 <= k < |w| ==> s[k] == w[k];
    }
    assert s[|w| + 1] == rest[0];
    assert SkipSpaces(s, |w| + 1) == |w| + 1;
    assert SkipSpaces(s, |w|) == |w| + 1;
    assert s[..|w|] == w;
    assert s[|w| + 1..] == rest;
  }

  /** Three words separated by single spaces split into exactly those words. */
  lemma SplitThreeWords(command: string, target: string, answer: string)
    requires IsWord(command) && IsWord(target)
    requires answer != [] && !IsRegexSpace(answer[0]) && !IsRegexSpace(target[0])
    ensures SplitOnSpaces(command + " " + target + " " + answer, 3) == [command, target, answer]
  {
    var tail := target + " " + answer;
    assert command + " " + target + " " + answer == command + " " + tail;
    SplitWord(command, tail, 3);
    SplitWord(target, answer, 2);
  }

  /**
   * A slash, a command word, a recipient word and a trimmed answer, separated
   * by single spaces, yield the answer exactly when the command sends a
   * private message and the recipient is one of the bot's names (both without
   * regard to case), and nothing otherwise.
   */
  lemma PrivateAnswerForm(command: string, target: string, answer: string)
    requires IsWord(command) && !IsTrimChar(command[0])
    requires IsWord(target)
    requires answer != [] && IsTrimmed(answer)
    ensures ParsePrivatePluginAnswer("/" + command + " " + target + " " + answer) ==
            if IsMessageCommand(ToLower(command)) && IsPluginTarget(ToLower(target)) then Some(answer) else None
  {
    var message := "/" + command + " " + target + " " + answer;
    var content := command + " " + target + " " + answer;
    assert message[1..] == content;
    assert message[0] == '/' && !IsWhitespace(message[0]);
    assert content[0] == command[0];
    assert content[|content| - 1] == answer[|answer| - 1];
    assert IsTrimmed(content);
    assert !IsRegexSpace(answer[0]);
    SplitThreeWords(command, target, answer);
  }

  /**
   * Splitting text that neither starts nor ends with a `\s` character yields
   * words (non-empty, without `\s`) for every part but the last, and for the
   * last too when the limit was not reached.
   */
  lemma {:induction false} SplitPartsAreWords(s: string, limit: nat)
    requires limit >= 1 && s != [] && !IsRegexSpace(s[0]) && !IsRegexSpace(s[|s| - 1])
    ensures var parts := SplitOnSpaces(s, limit);
            forall k :: 0 <= k < |parts| - 1 ==> IsWord(parts[k])
    ensures var parts := SplitOnSpaces(s, limit);
            |parts| < limit ==> IsWord(parts[|parts| - 1])
    decreases limit
  {
    var i := FirstSpace(s);
    if limit > 1 && i < |s| {
      var j := SkipSpaces(s, i);
      assert j < |s|;
      var rest := s[j..];
      assert rest[|rest| - 1] == s[|s| - 1];
      SplitPartsAreWords(rest, limit - 1);
      var parts := SplitOnSpaces(s, limit);
      assert parts == [s[..i]] + SplitOnSpaces(rest, limit - 1);
      assert IsWord(s[..i]);
    }
  }

  /**
   * `parsePrivatePluginAnswer` over every message: there is an answer exactly
   * when the message is not blank, starts with '/', and the text after the
   * slash, trimmed and split at runs of `\s` into at most three parts, starts
   * with a message command and a bot name (both without regard to case). Those
   * two are single words, and the answer is the trimmed third part, or "" when
   * there is none.
   */
  lemma PrivateAnswerParts(message: string)
    ensures var r := ParsePrivatePluginAnswer(message);
            r.Some? <==>
              && !IsBlank(message) && message[0] == '/'
              && var p := SplitOnSpaces(Trim(message[1..]), 3);
                 |p| >= 2 && IsMessageCommand(ToLower(p[0])) && IsPluginTarget(ToLower(p[1]))
    ensures var r := ParsePrivatePluginAnswer(message);
            r.Some? ==>
              var p := SplitOnSpaces(Trim(message[1..]), 3);
              && IsWord(p[0]) && IsWord(p[1])
              && r.value == (if |p| == 3 then Trim(p[2]) else "")
  {
    if ParsePrivatePluginAnswer(message).Some? {
      var content := Trim(message[1..]);
      var p := SplitOnSpaces(content, 3);
      assert content != [];
      SplitPartsAreWords(content, 3);
    }
  }

  /** Only the bot's names are accepted as the recipient: "/msg plugin haus" is not an answer. */
  lemma OtherRecipientRejected(message: string)
    requires message == "/msg plugin haus"
    ensures ParsePrivatePluginAnswer(message) == None
  {
    assert message == "/" + "msg" + " " + "plugin" + " " + "haus";
    PrivateAnswerForm("msg", "plugin", "haus");
    // Every bot name is longer than "plugin".
    assert |ToLower("plugin")| == 6;
  }

  /** "/msg jenkins haus" is the answer "haus". */
  lemma BotRecipientAccepted(message: string)
    requires message == "/msg jenkins haus"
    ensures ParsePrivatePluginAnswer(message) == Some("haus")
  {
    assert message == "/" + "msg" + " " + "jenkins" + " " + "haus";
    PrivateAnswerForm("msg", "jenkins", "haus");
  }

  /** A message that is not a command is never an answer. */
  lemma NonCommandRejected(message: string)
    requires message == [] || message[0] != '/'
    ensures ParsePrivatePluginAnswer(message) == None
  {
  }

  // ---------------------------------------------------------------------------
  // parseNonNegativeInt and parsePositiveInt
  // ---------------------------------------------------------------------------

  /** `parseNonNegativeInt`: `Integer.parseInt` of the sanitised text, when it is at least 0. */
  function ParseNonNegativeInt(raw: string): (r: Option<int>)
    ensures r.Some? ==> 0 <= r.value <= MAX_INT
    ensures r.Some? <==> ParseInt(Sanitized(raw)).Some? && ParseInt(Sanitized(raw)).value >= 0
  {
    match ParseInt(Sanitized(raw))
    case None => None
    case Some(v) => if v < 0 then None else Some(v)
  }

  /** `parsePositiveInt`: as `parseNonNegativeInt`, but 0 is refused too. */
  function ParsePositiveInt(raw: string): (r: Option<int>)
    ensures r.Some? ==> 0 < r.value <= MAX_INT
    ensures r.Some? ==> r == ParseNonNegativeInt(raw)
    ensures ParseNonNegativeInt(raw).Some? && ParseNonNegativeInt(raw).value > 0 ==> r.Some?
  {
    match ParseNonNegativeInt(raw)
    case None => None
    case Some(v) => if v <= 0 then None else Some(v)
  }

  /** Every non-negative `int`, as `String.valueOf` prints it, reads back as itself. */
  lemma ParseNonNegativeRoundTrip(n: int)
    requires 0 <= n <= MAX_INT
    ensures ParseNonNegativeInt(IntToString(n)) == Some(n)
    ensures n > 0 ==> ParsePositiveInt(IntToString(n)) == Some(n)
  {
    var s := IntToString(n);
    assert forall c :: c in s ==> IsDigit(c);
    assert IsTrimmed(s) by { assert IsDigit(s[0]) && IsDigit(s[|s| - 1]); }
    StripControlsClean(s);
    ParseIntRoundTrip(n);
  }

  /** Text without control characters or blanks at either end is its own sanitised form. */
  lemma SanitizedUnchanged(s: string)
    requires IsTrimmed(s) && forall c :: c in s ==> !IsIsoControl(c)
    ensures Sanitized(s) == s
  {
    StripControlsClean(s);
  }

  /** A negative number is not a minute count. */
  lemma NegativeRejected()
    ensures ParseNonNegativeInt("-5") == None
  {
    SanitizedUnchanged("-5");
    assert "-5"[1..] == "5";
  }

  /** Zero is not a limit. */
  lemma ZeroLimitRejected()
    ensures ParsePositiveInt("0") == None
  {
    SanitizedUnchanged("0");
  }

  /** Text that is not a number is refused. */
  lemma WordRejected()
    ensures ParseNonNegativeInt("abc") == None
  {
    SanitizedUnchanged("abc");
    assert !IsDigit("abc"[0]);
  }
}
