/**
  The command parser of the main screen: a final transcript becomes one
  action, chosen by the first of five case-insensitive keyword triggers that
  the text contains, with its arguments cut out of the text by substring
  extraction.
 */
module Commands {
  import opened Wrappers
  import opened KotlinStrings
  import opened KotlinInt

  /** What the parser asks the device to do. `InvalidAlarmTime` is the
      "Invalid time format" outcome of an alarm request: nothing is
      scheduled. */
  datatype Action =
    | Call(contact: string)
    | SendMessage(contact: string, body: string)
    | SetAlarm(hour: int, minute: int)
    | InvalidAlarmTime
    | WifiOn
    | WifiOff
    | Unrecognized

  /** The triggers, in the order they are tried. */
  const Triggers: seq<string> := ["call", "send message", "set alarm", "turn on wifi", "turn off wifi"]

  /** The position in `Triggers` of the trigger that yields `a`;
      `|Triggers|` for `Unrecognized`. */
  function Rule(a: Action): nat {
    match a
    case Call(_) => 0
    case SendMessage(_, _) => 1
    case SetAlarm(_, _) => 2
    case InvalidAlarmTime => 2
    case WifiOn => 3
    case WifiOff => 4
    case Unrecognized => 5
  }

  /** The contact of a call or message: what follows the first "to ". */
  function ExtractContactName(text: string): (name: string)
    ensures IsTrimmed(name)
  {
    Trim(SubstringAfter(text, "to "))
  }

  /** The body of a message: what follows the first "say " in what follows
      the first "message to ". */
  function ExtractMessageContent(text: string): (body: string)
    ensures IsTrimmed(body)
  {
    Trim(SubstringAfter(SubstringAfter(text, "message to "), "say "))
  }

  /** The time of an alarm: what follows the first "set alarm for ". */
  function ExtractTime(text: string): (time: string)
    ensures IsTrimmed(time)
  {
    Trim(SubstringAfter(text, "set alarm for "))
  }

  /** The hour is what precedes the first colon and the minute what follows
      it (both the whole text when there is no colon); both must pass
      `toIntOrNull`. There is no range check. */
  function ParseAlarmTime(time: string): (a: Action)
    ensures a.SetAlarm? || a.InvalidAlarmTime?
    ensures a.SetAlarm? ==> IsInt32(a.hour) && IsInt32(a.minute)
  {
    match (ToIntOrNull(SubstringBefore(time, ":")), ToIntOrNull(SubstringAfter(time, ":")))
    case (Some(h), Some(m)) => SetAlarm(h, m)
    case _ => InvalidAlarmTime
  }

  /** The `when` of `parseCommands`: the position in `Triggers` of the first
      trigger that `text` contains, ignoring case; `|Triggers|` when it
      contains none. Whatever else the text contains, an earlier trigger
      wins over a later one. */
  function FirstTrigger(text: string): (k: nat)
    ensures k <= |Triggers|
    ensures k < |Triggers| ==> ContainsIgnoreCase(text, Triggers[k])
    ensures forall j :: 0 <= j < k ==> !ContainsIgnoreCase(text, Triggers[j])
  {
    if ContainsIgnoreCase(text, "call") then 0
    else if ContainsIgnoreCase(text, "send message") then 1
    else if ContainsIgnoreCase(text, "set alarm") then 2
    else if ContainsIgnoreCase(text, "turn on wifi") then 3
    else if ContainsIgnoreCase(text, "turn off wifi") then 4
    else 5
  }

  /** `parseCommands`, stopped at the action it would carry out: the branch
      of the first matching trigger, with its arguments. */
  function Parse(text: string): (a: Action)
    ensures Rule(a) == FirstTrigger(text)
  {
    match FirstTrigger(text)
    case 0 => Call(ExtractContactName(text))
    case 1 => SendMessage(ExtractContactName(text), ExtractMessageContent(text))
    case 2 => ParseAlarmTime(ExtractTime(text))
    case 3 => WifiOn
    case 4 => WifiOff
    case _ => Unrecognized
  }

  /** The trigger that fires is the first one, in the fixed order, that the
      text contains: a text that contains a trigger is never
      `Unrecognized`, and no later trigger can take over. */
  lemma ParseFirstMatchWins(text: string, k: nat)
    requires k < |Triggers| && ContainsIgnoreCase(text, Triggers[k])
    ensures Rule(Parse(text)) <= k
    ensures Rule(Parse(text)) == k <==> forall j :: 0 <= j < k ==> !ContainsIgnoreCase(text, Triggers[j])
  {
  }

  /** A text that contains no trigger produces no effect. */
  lemma ParseUnrecognized(text: string)
    ensures Parse(text) == Unrecognized <==> forall k :: 0 <= k < |Triggers| ==> !ContainsIgnoreCase(text, Triggers[k])
  {
  }

  /** Case only matters for the arguments: lower-casing the text never
      changes which trigger fires. */
  lemma ParseRuleIgnoresCase(text: string)
    ensures Rule(Parse(LowerAscii(text))) == Rule(Parse(text))
  {
    ContainsIgnoresCase(text, "call");
    ContainsIgnoresCase(text, "send message");
    ContainsIgnoresCase(text, "set alarm");
    ContainsIgnoresCase(text, "turn on wifi");
    ContainsIgnoresCase(text, "turn off wifi");
  }

  /** "to " followed by a name gives back the name, provided no "to "
      starts before the delimiter. */
  lemma ContactNameRoundTrip(p: string, name: string, pad: string)
    requires !Occurs(p + "to", "to ")
    requires IsTrimmed(name) && AllWhitespace(pad)
    ensures ExtractContactName(p + "to " + name + pad) == name
  {
    assert ("to ")[..2] == "to";
    assert p + "to " + name + pad == p + "to " + (name + pad);
    SubstringAfterFirst(p, "to ", name + pad);
    TrimPadded("", name, pad);
    assert "" + name + pad == name + pad;
  }

  /** "message to ", a recipient, "say " and a body give back the body,
      provided neither delimiter occurs earlier than intended. */
  lemma MessageContentRoundTrip(p: string, q: string, body: string)
    requires !Occurs(p + "message to", "message to ")
    requires !Occurs(q + "say", "say ")
    requires IsTrimmed(body)
    ensures ExtractMessageContent(p + "message to " + q + "say " + body) == body
  {
    assert ("message to ")[..10] == "message to";
    assert ("say ")[..3] == "say";
    assert p + "message to " + q + "say " + body == p + "message to " + (q + "say " + body);
    SubstringAfterFirst(p, "message to ", q + "say " + body);
    SubstringAfterFirst(q, "say ", body);
    TrimIdempotent(body);
    TrimPadded("", body, "");
    assert "" + body + "" == body;
  }

  /** "set alarm for " followed by a time gives back the time. */
  lemma TimeRoundTrip(p: string, time: string)
    requires !Occurs(p + "set alarm for", "set alarm for ")
    requires IsTrimmed(time)
    ensures ExtractTime(p + "set alarm for " + time) == time
  {
    assert ("set alarm for ")[..13] == "set alarm for";
    SubstringAfterFirst(p, "set alarm for ", time);
    TrimPadded("", time, "");
    assert "" + time + "" == time;
  }

  /** Every pair of `Int`s written as "HOUR:MINUTE" is accepted as is:
      there is no range check on either component. */
  lemma AlarmTimeRoundTrip(h: int, m: int)
    requires IsInt32(h) && IsInt32(m)
    ensures ParseAlarmTime(FormatInt(h) + ":" + FormatInt(m)) == SetAlarm(h, m)
  {
    var hs := FormatInt(h);
    FormatIntChars(h);
    OccursSingle(hs, ':');
    assert hs + [':'] == hs + ":";
    assert ":"[..0] == [];
    assert hs + ":"[..0] == hs;
    SubstringAfterFirst(hs, ":", FormatInt(m));
    ParseFormatRoundTrip(h);
    ParseFormatRoundTrip(m);
  }

  /** The contact is whatever follows the first "to ", trimmed, blanks
      right after the delimiter included. */
  lemma ExtractContactNameAfter(p: string, rest: string)
    requires !Occurs(p + "to", "to ")
    ensures ExtractContactName(p + "to " + rest) == Trim(rest)
  {
    assert ("to ")[..2] == "to";
    SubstringAfterFirst(p, "to ", rest);
  }

  /** Without "to " the contact is the whole text, trimmed. */
  lemma ExtractContactNameAbsent(text: string)
    requires !Occurs(text, "to ")
    ensures ExtractContactName(text) == Trim(text)
  {
    SubstringAfterMeaning(text, "to ");
  }

  /** The time is whatever follows the first "set alarm for ", trimmed. */
  lemma ExtractTimeAfter(p: string, rest: string)
    requires !Occurs(p + "set alarm for", "set alarm for ")
    ensures ExtractTime(p + "set alarm for " + rest) == Trim(rest)
  {
    assert ("set alarm for ")[..13] == "set alarm for";
    SubstringAfterFirst(p, "set alarm for ", rest);
  }

  /** Without "set alarm for ", matched case-sensitively, the time is the
      whole text, trimmed. */
  lemma ExtractTimeAbsent(text: string)
    requires !Occurs(text, "set alarm for ")
    ensures ExtractTime(text) == Trim(text)
  {
    SubstringAfterMeaning(text, "set alarm for ");
  }

  /** First stage of the body: the search for "say " starts after the first
      "message to ". */
  lemma ExtractMessageContentAfterRecipient(p: string, rest: string)
    requires !Occurs(p + "message to", "message to ")
    ensures ExtractMessageContent(p + "message to " + rest) == Trim(SubstringAfter(rest, "say "))
  {
    assert ("message to ")[..10] == "message to";
    SubstringAfterFirst(p, "message to ", rest);
  }

  /** First stage without "message to ": "say " is searched in the whole
      text. */
  lemma ExtractMessageContentNoRecipient(text: string)
    requires !Occurs(text, "message to ")
    ensures ExtractMessageContent(text) == Trim(SubstringAfter(text, "say "))
  {
    SubstringAfterMeaning(text, "message to ");
  }

  /** Second stage: the body is whatever follows the first "say " of the
      recipient part, trimmed. */
  lemma ExtractMessageContentAfterSay(text: string, q: string, rest: string)
    requires SubstringAfter(text, "message to ") == q + "say " + rest
    requires !Occurs(q + "say", "say ")
    ensures ExtractMessageContent(text) == Trim(rest)
  {
    assert ("say ")[..3] == "say";
    SubstringAfterFirst(q, "say ", rest);
  }

  /** Second stage without "say ": the body is the whole recipient part,
      trimmed. */
  lemma ExtractMessageContentNoSay(text: string)
    requires !Occurs(SubstringAfter(text, "message to "), "say ")
    ensures ExtractMessageContent(text) == Trim(SubstringAfter(text, "message to "))
  {
    SubstringAfterMeaning(SubstringAfter(text, "message to "), "say ");
  }

  /** The hour is read from what precedes the first colon and the minute
      from what follows it; the alarm is set only when both are `Int`s. */
  lemma AlarmTimeSplit(a: string, b: string)
    requires ':' !in a
    ensures ParseAlarmTime(a + ":" + b) == (match (ToIntOrNull(a), ToIntOrNull(b))
                                            case (Some(h), Some(m)) => SetAlarm(h, m)
                                            case _ => InvalidAlarmTime)
  {
    OccursSingle(a, ':');
    assert a + [':'] == a + ":";
    assert ":"[..0] == [];
    assert a + ":"[..0] == a;
    SubstringAfterFirst(a, ":", b);
  }

  /** Seconds are not understood: "9:30:00" is rejected. */
  lemma AlarmTimeExampleSeconds()
    ensures ParseAlarmTime("9:30:00") == InvalidAlarmTime
  {
    assert "9:30:00" == "9" + ":" + "30:00";
    assert !IsDigit("30:00"[1..][1]);
    AlarmTimeSplit("9", "30:00");
  }

  /** Without a colon, hour and minute are both the whole time, so a lone
      number sets an alarm at that hour and that same minute. */
  lemma AlarmTimeWithoutColon(time: string)
    requires ':' !in time
    ensures ParseAlarmTime(time) == (match ToIntOrNull(time)
                                     case Some(n) => SetAlarm(n, n)
                                     case None => InvalidAlarmTime)
  {
    OccursSingle(time, ':');
    assert ":" == [':'];
  }

  lemma AlarmTimeExampleHourMinute()
    ensures ParseAlarmTime("9:30") == SetAlarm(9, 30)
  {
    assert FormatInt(9) == "9";
    assert FormatInt(30) == FormatNat(3) + "0" == "30";
    assert "9:30" == FormatInt(9) + ":" + FormatInt(30);
    AlarmTimeRoundTrip(9, 30);
  }

  lemma AlarmTimeExampleOutOfRange()
    ensures ParseAlarmTime("25:99") == SetAlarm(25, 99)
  {
    assert FormatInt(25) == FormatNat(2) + "5" == "25";
    assert FormatInt(99) == FormatNat(9) + "9" == "99";
    assert "25:99" == FormatInt(25) + ":" + FormatInt(99);
    AlarmTimeRoundTrip(25, 99);
  }

  lemma AlarmTimeExampleWord()
    ensures ParseAlarmTime("noon") == InvalidAlarmTime
  {
    assert !IsDigit("noon"[0]);
    AlarmTimeWithoutColon("noon");
  }

  lemma AlarmTimeExampleLoneNumber()
    ensures ParseAlarmTime("9") == SetAlarm(9, 9)
  {
    assert FormatInt(9) == "9";
    ParseFormatRoundTrip(9);
    AlarmTimeWithoutColon("9");
  }

  /** An alarm request made of digits, signs and a colon contains "set
      alarm" and no earlier trigger. */
  lemma AlarmRequestTriggers(time: string)
    requires forall c :: c in time ==> IsDigit(c) || c == '-' || c == ':'
    ensures FirstTrigger("set alarm for " + time) == 2
  {
    var text := "set alarm for " + time;
    AlarmRequestLetters(time);
    AlarmRequestHasNoCall(text);
    AlarmRequestHasNoMessage(text);
    AlarmRequestHasAlarm(time);
  }

  lemma AlarmRequestLetters(time: string)
    requires forall c :: c in time ==> IsDigit(c) || c == '-' || c == ':'
    ensures var text := "set alarm for " + time;
            'c' !in text && 'C' !in text && 'd' !in text && 'D' !in text
  {
    var text := "set alarm for " + time;
    assert forall c :: c in text ==> c in "set alarm for " || c in time;
  }

  lemma AlarmRequestHasAlarm(time: string)
    ensures ContainsIgnoreCase("set alarm for " + time, "set alarm")
  {
    var text := "set alarm for " + time;
    assert text == "set alarm" + (" for " + time);
    ExactMatchIgnoresCase(text, "set alarm", 0);
  }

  lemma AlarmRequestHasNoCall(text: string)
    requires 'c' !in text && 'C' !in text
    ensures !ContainsIgnoreCase(text, "call")
  {
    NoMatchWithoutLetter(text, "call", 0);
  }

  lemma AlarmRequestHasNoMessage(text: string)
    requires 'd' !in text && 'D' !in text
    ensures !ContainsIgnoreCase(text, "send message")
  {
    NoMatchWithoutLetter(text, "send message", 3);
  }

  /** A spoken "set alarm for HOUR:MINUTE" sets that alarm, for every pair
      of `Int`s. */
  lemma ParseAlarmCommand(h: int, m: int)
    requires IsInt32(h) && IsInt32(m)
    ensures Parse("set alarm for " + (FormatInt(h) + ":" + FormatInt(m))) == SetAlarm(h, m)
  {
    var hs, ms := FormatInt(h), FormatInt(m);
    var time := hs + ":" + ms;
    FormatIntChars(h);
    FormatIntChars(m);
    assert forall c :: c in time ==> c in hs || c == ':' || c in ms;
    AlarmRequestTriggers(time);
    assert IsTrimmed(time) by {
      assert time[0] == hs[0];
      assert time[|time| - 1] == ms[|ms| - 1];
    }
    TimeRoundTrip("", time);
    assert "" + "set alarm for " == "set alarm for ";
    AlarmTimeRoundTrip(h, m);
  }

  /** A spoken "send message to NAME say BODY" sends BODY; the contact is
      everything after "to ", so it keeps the " say BODY" part. */
  lemma ParseMessageCommand(name: string, body: string)
    requires !ContainsIgnoreCase("send message to " + (name + " say " + body), "call")
    requires !Occurs(name + " say", "say ")
    requires IsTrimmed(body)
    ensures Parse("send message to " + (name + " say " + body))
         == SendMessage(Trim(name + " say " + body), body)
  {
    var rest := name + " say " + body;
    var text := "send message to " + rest;
    assert text == "send message" + (" to " + rest);
    ExactMatchIgnoresCase(text, "send message", 0);
    MessageRequestContact(rest);
    MessageRequestBody(name, body);
  }

  lemma MessageRequestContact(rest: string)
    ensures ExtractContactName("send message to " + rest) == Trim(rest)
  {
    NoOccurrenceSplit("send message ", "to", "to ");
    assert "send message " + "to" == "send message " + ("to ")[..2];
    assert "send message to " + rest == "send message " + "to " + rest;
    SubstringAfterFirst("send message ", "to ", rest);
  }

  lemma MessageRequestBody(name: string, body: string)
    requires !Occurs(name + " say", "say ")
    requires IsTrimmed(body)
    ensures ExtractMessageContent("send message to " + (name + " say " + body)) == body
  {
    var rest := name + " say " + body;
    MessageRequestRecipient(rest);
    assert name + " say" == name + " " + ("say ")[..3];
    assert rest == name + " " + "say " + body;
    SubstringAfterFirst(name + " ", "say ", body);
    TrimPadded("", body, "");
    assert "" + body + "" == body;
  }

  lemma MessageRequestRecipient(rest: string)
    ensures SubstringAfter("send message to " + rest, "message to ") == rest
  {
    NoOccurrenceSplit("send ", "message to", "message to ");
    assert "send " + "message to" == "send " + ("message to ")[..10];
    assert "send message to " + rest == "send " + "message to " + rest;
    SubstringAfterFirst("send ", "message to ", rest);
  }

  /** Whenever "call" is in the text, in any case, a call is placed to
      the extracted contact. */
  lemma ParseCallRule(text: string)
    requires ContainsIgnoreCase(text, "call")
    ensures Parse(text) == Call(ExtractContactName(text))
  {
  }

  /** A call without "to " goes to the whole text, trimmed. */
  lemma ParseCallWithoutTo(text: string)
    requires ContainsIgnoreCase(text, "call") && !Occurs(text, "to ")
    ensures Parse(text) == Call(Trim(text))
  {
    ParseCallRule(text);
    ExtractContactNameAbsent(text);
  }

  /** "call mom" has no "to ", so the whole text is the contact. */
  lemma ParseExampleCallWithoutTo()
    ensures Parse("call mom") == Call("call mom")
  {
    CallMomFacts("call mom");
    ParseCallWithoutTo("call mom");
  }

  lemma CallMomFacts(text: string)
    requires text == "call mom"
    ensures ContainsIgnoreCase(text, "call") && !Occurs(text, "to ") && Trim(text) == text
  {
    ExactMatchIgnoresCase(text, "call", 0);
    NoOccurrenceSplit(text, "", "to ");
    assert text + "" == text;
    TrimPadded("", text, "");
    assert "" + text + "" == text;
  }

  /** When "send message" but not "call" is in the text, in any case, the
      message goes to the extracted contact with the extracted body. */
  lemma ParseMessageRule(text: string)
    requires !ContainsIgnoreCase(text, "call") && ContainsIgnoreCase(text, "send message")
    ensures Parse(text) == SendMessage(ExtractContactName(text), ExtractMessageContent(text))
  {
  }

  /** When neither "call" nor "send message" is in the text but "set
      alarm" is, in any case, the extracted time decides the alarm. */
  lemma ParseAlarmRule(text: string)
    requires !ContainsIgnoreCase(text, "call") && !ContainsIgnoreCase(text, "send message")
    requires ContainsIgnoreCase(text, "set alarm")
    ensures Parse(text) == ParseAlarmTime(ExtractTime(text))
  {
  }

  /** The trigger is case-insensitive but the delimiter is not: without a
      lower-case "set alarm for " the whole trimmed text is read as the
      time. */
  lemma ParseAlarmWithoutFor(text: string)
    requires !ContainsIgnoreCase(text, "call") && !ContainsIgnoreCase(text, "send message")
    requires ContainsIgnoreCase(text, "set alarm") && !Occurs(text, "set alarm for ")
    ensures Parse(text) == ParseAlarmTime(Trim(text))
  {
    ParseAlarmRule(text);
    ExtractTimeAbsent(text);
  }

  /** "Set alarm for 9:30" fires the alarm rule, but its hour field is the
      whole "Set alarm for 9", so the time is rejected. */
  lemma ParseExampleCapitalAlarm()
    ensures Parse("Set alarm for 9:30") == InvalidAlarmTime
  {
    CapitalAlarmFacts("Set alarm for 9:30");
    ParseAlarmWithoutFor("Set alarm for 9:30");
    CapitalAlarmTime("Set alarm for 9:30");
  }

  lemma CapitalAlarmFacts(text: string)
    requires text == "Set alarm for 9:30"
    ensures !ContainsIgnoreCase(text, "call") && !ContainsIgnoreCase(text, "send message")
    ensures ContainsIgnoreCase(text, "set alarm") && !Occurs(text, "set alarm for ")
    ensures Trim(text) == text
  {
    AlarmRequestHasNoCall(text);
    AlarmRequestHasNoMessage(text);
    CapitalAlarmTrigger(text);
    CapitalAlarmShape(text);
  }

  lemma CapitalAlarmTrigger(text: string)
    requires text == "Set alarm for 9:30"
    ensures ContainsIgnoreCase(text, "set alarm")
  {
    assert MatchesIgnoreCaseAt(text, "set alarm", 0);
    ContainsIgnoreCaseMeaning(text, "set alarm");
  }

  lemma CapitalAlarmShape(text: string)
    requires text == "Set alarm for 9:30"
    ensures !Occurs(text, "set alarm for ") && Trim(text) == text
  {
    NoOccurrenceSplit(text, "", "set alarm for ");
    assert text + "" == text;
    TrimPadded("", text, "");
    assert "" + text + "" == text;
  }

  lemma CapitalAlarmTime(text: string)
    requires text == "Set alarm for 9:30"
    ensures ParseAlarmTime(text) == InvalidAlarmTime
  {
    assert text == "Set alarm for 9" + ":" + "30";
    AlarmTimeSplit("Set alarm for 9", "30");
    assert !IsDigit("Set alarm for 9"[0]);
  }

  /** A command that names both a call and a radio switch is a call. */
  lemma ParseExampleFirstMatch()
    ensures ContainsIgnoreCase("Call mom and turn on WiFi", "turn on wifi")
    ensures Parse("Call mom and turn on WiFi").Call?
  {
    var text := "Call mom and turn on WiFi";
    assert MatchesIgnoreCaseAt(text, "call", 0);
    assert MatchesIgnoreCaseAt(text, "turn on wifi", 13);
    ContainsIgnoreCaseMeaning(text, "call");
    ContainsIgnoreCaseMeaning(text, "turn on wifi");
  }
}
