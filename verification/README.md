# SOPA main screen: command parser and recognition reconciler

SOPA is an Android app for offline speech recognition built on Vosk. Its main
screen, `MainActivity`, does two things, and this project models both.

- **It reconciles recognizer callbacks with the screen.** Partial hypotheses
  are shown only when they change. A final hypothesis overwrites the display,
  is appended to the dictation view, and in command mode is handed to the
  command parser. Errors and timeouts are shown as messages. The start and
  stop buttons drive a speech service; the command-mode button switches
  whether final texts are parsed. Start only succeeds once the model has
  finished loading.
- **It parses spoken commands.** Five case-insensitive triggers are tried in
  a fixed order: "call", "send message", "set alarm", "turn on wifi" and
  "turn off wifi". The first one the text contains wins. Contact name,
  message body and alarm time are cut out with Kotlin's `substringAfter`,
  `substringBefore` and `trim`. The alarm's hour and minute are read with
  `toIntOrNull`, without any range check.

The project has six modules:

- `Wrappers` holds `Option`.
- `KotlinStrings` models the Kotlin string functions the parser calls:
  `indexOf`, `substringAfter`, `substringBefore`, `contains(ignoreCase = true)`
  and `trim`.
- `KotlinInt` gives a reference meaning for `String.toIntOrNull()`. It also
  has the standard library's overflow-checked accumulation loop, as a method
  proved equal to that meaning, and `Int.toString()` for round trips.
- `Commands` holds the `Action` the parser chooses, the three extractors, the
  alarm-time parse and `Parse`. `Parse` is `parseCommands`, stopped at the
  action it would carry out.
- `Reconciler` holds the screen's state. Each event (callback or button
  press) is a pure function from state to state. `Run` folds a sequence of
  events.
- `Screen` joins the two: the texts the reconciler hands on are parsed into
  the actions they set off.

The text a final result hands to the parser is recorded in the trace. Its
meaning is `Commands.Parse` of that text, and `Screen` states that link.

The model follows the code in four places where its behaviour may be
surprising:

- **`lastPartialText` is never reset.** A start clears both views but keeps
  the last partial text. After a restart, a first partial equal to the
  previous session's last partial is therefore not shown
  (`Reconciler.StalePartialHiddenAfterRestart`).
- **Stop before any start changes nothing.** It throws inside the activity,
  the exception is caught, a toast is shown, and the state stays as it was.
- **Start before the model is loaded changes nothing.** It is caught the same
  way. There is no separate "model not ready" result.
- **An error without a message is shown as "Error: null".** This is how
  Kotlin's string template renders it.

## Model

| member | source | states |
|---|---|---|
| KotlinStrings.IndexOfFrom | app/src/main/java/com/example/sopa/MainActivity.kt:407 | the search for a delimiter from a position returns the leftmost occurrence at or after it, or none when no occurrence starts there or later |
| KotlinStrings.IndexOf | app/src/main/java/com/example/sopa/MainActivity.kt:407 | a position is found exactly when the delimiter occurs, and it is the first occurrence |
| KotlinStrings.SubstringAfter | app/src/main/java/com/example/sopa/MainActivity.kt:407 | the result is a suffix of the text: the whole text when the delimiter does not occur, otherwise shorter than the text by at least the delimiter |
| KotlinStrings.SubstringBefore | app/src/main/java/com/example/sopa/MainActivity.kt:417 | the result is a prefix of the text: the whole text when the delimiter does not occur, otherwise a prefix directly followed by the delimiter |
| KotlinStrings.SubstringAfterMeaning | app/src/main/java/com/example/sopa/MainActivity.kt:407 | `substringAfter` yields the whole text when the delimiter is absent, else the text after its first occurrence |
| KotlinStrings.SubstringBeforeMeaning | app/src/main/java/com/example/sopa/MainActivity.kt:417 | `substringBefore` yields the whole text when the delimiter is absent, else the text before its first occurrence |
| KotlinStrings.SubstringSplit | app/src/main/java/com/example/sopa/MainActivity.kt:417-418 | the hour text, the colon and the minute text put back together give the whole time: nothing is lost by the cut |
| KotlinStrings.SubstringAfterFirst | app/src/main/java/com/example/sopa/MainActivity.kt:407 | when the delimiter first occurs right after a prefix, the two cuts give back the prefix and the text that followed |
| KotlinStrings.NoOccurrenceSplit | app/src/main/java/com/example/sopa/MainActivity.kt:410 | a delimiter whose first character is missing from the text before a short tail cannot occur in it |
| KotlinStrings.OccursSingle | app/src/main/java/com/example/sopa/MainActivity.kt:417 | a one-character delimiter such as ":" occurs exactly when the character is in the text |
| KotlinStrings.LowerAsciiIdempotent | app/src/main/java/com/example/sopa/MainActivity.kt:363 | case folding a folded text changes nothing |
| KotlinStrings.ContainsIgnoreCase | app/src/main/java/com/example/sopa/MainActivity.kt:363 | a needle that is contained, ignoring case, is no longer than the text, and the empty needle is always contained |
| KotlinStrings.ContainsIgnoreCaseMeaning | app/src/main/java/com/example/sopa/MainActivity.kt:363 | case-insensitive containment holds exactly when the needle matches at some position, character by character up to case |
| KotlinStrings.MatchesAreLowerOccurrences | app/src/main/java/com/example/sopa/MainActivity.kt:363 | a case-insensitive match at a position is the same as an occurrence in the case-folded text there |
| KotlinStrings.ExactMatchIgnoresCase | app/src/main/java/com/example/sopa/MainActivity.kt:363 | an exact occurrence of a trigger makes the case-insensitive test succeed |
| KotlinStrings.NoMatchWithoutLetter | app/src/main/java/com/example/sopa/MainActivity.kt:363 | a text lacking one of the needle's letters in both cases does not contain the needle, whatever the case |
| KotlinStrings.ContainsIgnoresCase | app/src/main/java/com/example/sopa/MainActivity.kt:363 | lower-casing the text never changes whether it contains a needle ignoring case |
| KotlinStrings.TrimStart | app/src/main/java/com/example/sopa/MainActivity.kt:407 | the result is a suffix, everything dropped is whitespace, and it starts with a non-whitespace character |
| KotlinStrings.TrimEnd | app/src/main/java/com/example/sopa/MainActivity.kt:407 | the result is a prefix, everything dropped is whitespace, and it ends with a non-whitespace character |
| KotlinStrings.WhitespaceIsJavaOrSpace | app/src/main/java/com/example/sopa/MainActivity.kt:407 | the characters `trim` drops are exactly those Java calls whitespace or a space character: the Unicode separators plus tab to carriage return and the four information separators |
| KotlinStrings.Trim | app/src/main/java/com/example/sopa/MainActivity.kt:407 | the trimmed text has no whitespace at either end and is no longer than the input |
| KotlinStrings.TrimRemovesOnlyWhitespace | app/src/main/java/com/example/sopa/MainActivity.kt:407 | the trimmed text is a contiguous slice of the input, and what lies before and after it is whitespace |
| KotlinStrings.TrimPadded | app/src/main/java/com/example/sopa/MainActivity.kt:407 | trimming recovers any trimmed text from whitespace padding on either side |
| KotlinStrings.TrimStartPadded | app/src/main/java/com/example/sopa/MainActivity.kt:407 | leading whitespace in front of a text that starts with a non-blank is removed exactly |
| KotlinStrings.TrimEndPadded | app/src/main/java/com/example/sopa/MainActivity.kt:407 | trailing whitespace after a text that ends with a non-blank is removed exactly |
| KotlinStrings.TrimIdempotent | app/src/main/java/com/example/sopa/MainActivity.kt:407 | trimming twice is trimming once |
| KotlinInt.ToIntOrNull | app/src/main/java/com/example/sopa/MainActivity.kt:417-418 | an accepted string is non-empty, starts with a digit or sign, has only digits after it, and has a value that fits an `Int` with the sign of the string |
| KotlinInt.DigitsValuePrefix | app/src/main/java/com/example/sopa/MainActivity.kt:417-418 | a prefix of a digit string never has a larger value than the whole |
| KotlinInt.ParseInt32 | app/src/main/java/com/example/sopa/MainActivity.kt:417-418 | the standard library's negative accumulation loop, with its two overflow checks, returns exactly the reference meaning on every string |
| KotlinInt.OverflowIsFinal | app/src/main/java/com/example/sopa/MainActivity.kt:417-418 | once a prefix of the digits leaves the `Int` range the whole string is rejected, so the loop may stop early |
| KotlinInt.FormatNat | app/src/main/java/com/example/sopa/MainActivity.kt:417-418 | the decimal rendering is a non-empty digit string without leading zero whose value is the number |
| KotlinInt.FormatInt | app/src/main/java/com/example/sopa/MainActivity.kt:417-418 | the decimal rendering of an `Int` is non-empty and starts with a minus sign exactly when the number is negative |
| KotlinInt.ParseFormatRoundTrip | app/src/main/java/com/example/sopa/MainActivity.kt:417-418 | every `Int` written in decimal is read back unchanged |
| KotlinInt.FormatIntChars | app/src/main/java/com/example/sopa/MainActivity.kt:417-418 | a rendered `Int` is non-empty, ends with a digit, and holds only digits after an optional minus sign, so never a colon |
| Commands.ExtractContactName | app/src/main/java/com/example/sopa/MainActivity.kt:405-408 | the contact name never starts or ends with whitespace |
| Commands.ExtractMessageContent | app/src/main/java/com/example/sopa/MainActivity.kt:409-411 | the message body never starts or ends with whitespace |
| Commands.ExtractTime | app/src/main/java/com/example/sopa/MainActivity.kt:412-415 | the alarm time never starts or ends with whitespace |
| Commands.ExtractContactNameAfter | app/src/main/java/com/example/sopa/MainActivity.kt:405-408 | the contact is everything after the first "to ", trimmed |
| Commands.ExtractContactNameAbsent | app/src/main/java/com/example/sopa/MainActivity.kt:405-408 | without "to " the contact is the whole text, trimmed |
| Commands.ExtractMessageContentAfterRecipient | app/src/main/java/com/example/sopa/MainActivity.kt:409-411 | the search for "say " starts right after the first "message to " |
| Commands.ExtractMessageContentNoRecipient | app/src/main/java/com/example/sopa/MainActivity.kt:409-411 | without "message to " the search for "say " covers the whole text |
| Commands.ExtractMessageContentAfterSay | app/src/main/java/com/example/sopa/MainActivity.kt:409-411 | the body is everything after the first "say " of the recipient part, trimmed |
| Commands.ExtractMessageContentNoSay | app/src/main/java/com/example/sopa/MainActivity.kt:409-411 | without "say " the body is the whole recipient part, trimmed |
| Commands.ExtractTimeAfter | app/src/main/java/com/example/sopa/MainActivity.kt:412-415 | the time is everything after the first "set alarm for ", trimmed |
| Commands.ExtractTimeAbsent | app/src/main/java/com/example/sopa/MainActivity.kt:412-415 | without a lower-case "set alarm for " the time is the whole text, trimmed |
| Commands.ContactNameRoundTrip | app/src/main/java/com/example/sopa/MainActivity.kt:405-408 | "to " followed by a trimmed name and trailing blanks yields the name, when no earlier "to " exists |
| Commands.MessageContentRoundTrip | app/src/main/java/com/example/sopa/MainActivity.kt:409-411 | "message to ", a recipient, "say " and a trimmed body yield the body, when neither delimiter occurs earlier |
| Commands.TimeRoundTrip | app/src/main/java/com/example/sopa/MainActivity.kt:412-415 | "set alarm for " followed by a trimmed time yields the time, when no earlier "set alarm for " exists |
| Commands.ParseAlarmTime | app/src/main/java/com/example/sopa/MainActivity.kt:416-440 | an alarm request either sets an alarm whose hour and minute are `Int`s or is rejected as an invalid time |
| Commands.AlarmTimeRoundTrip | app/src/main/java/com/example/sopa/MainActivity.kt:416-420 | any two `Int`s written as "HOUR:MINUTE" set exactly that alarm: there is no range check |
| Commands.AlarmTimeSplit | app/src/main/java/com/example/sopa/MainActivity.kt:416-440 | the hour is read from the text before the first colon and the minute from all of the text after it; the alarm is set exactly when both read as `Int`s |
| Commands.AlarmTimeExampleSeconds | app/src/main/java/com/example/sopa/MainActivity.kt:416-440 | "9:30:00" is rejected, since its minute text "30:00" is not a number |
| Commands.AlarmTimeWithoutColon | app/src/main/java/com/example/sopa/MainActivity.kt:416-420 | without a colon both hour and minute are read from the whole time, so one number sets both, and anything else is rejected |
| Commands.AlarmTimeExampleHourMinute | app/src/main/java/com/example/sopa/MainActivity.kt:416-420 | "9:30" sets an alarm at 9 hours 30 minutes |
| Commands.AlarmTimeExampleOutOfRange | app/src/main/java/com/example/sopa/MainActivity.kt:416-420 | "25:99" is accepted as hour 25, minute 99 |
| Commands.AlarmTimeExampleWord | app/src/main/java/com/example/sopa/MainActivity.kt:438-440 | "noon" is rejected as an invalid time |
| Commands.AlarmTimeExampleLoneNumber | app/src/main/java/com/example/sopa/MainActivity.kt:416-420 | "9" sets an alarm at 9 hours 9 minutes |
| Commands.FirstTrigger | app/src/main/java/com/example/sopa/MainActivity.kt:361-387 | the chosen rule's trigger is contained, ignoring case, and no earlier trigger is |
| Commands.Parse | app/src/main/java/com/example/sopa/MainActivity.kt:361-387 | the action's kind is the one of the first trigger the text contains, or unrecognized when it contains none |
| Commands.ParseFirstMatchWins | app/src/main/java/com/example/sopa/MainActivity.kt:362-381 | a contained trigger is never overtaken by a later one, and it fires exactly when no earlier trigger is contained |
| Commands.ParseUnrecognized | app/src/main/java/com/example/sopa/MainActivity.kt:382-386 | a text is unrecognized exactly when it contains none of the five triggers |
| Commands.ParseRuleIgnoresCase | app/src/main/java/com/example/sopa/MainActivity.kt:363-380 | lower-casing the spoken text never changes which rule fires |
| Commands.AlarmRequestTriggers | app/src/main/java/com/example/sopa/MainActivity.kt:363-375 | "set alarm for " and a numeric time selects the alarm rule: it holds no "call" and no "send message" |
| Commands.ParseAlarmCommand | app/src/main/java/com/example/sopa/MainActivity.kt:372-375 | a spoken "set alarm for HOUR:MINUTE" sets that alarm, for every pair of `Int`s |
| Commands.ParseMessageCommand | app/src/main/java/com/example/sopa/MainActivity.kt:367-371 | "send message to NAME say BODY" sends BODY, and the contact keeps the trailing " say BODY" since it is everything after "to " |
| Commands.ParseExampleFirstMatch | app/src/main/java/com/example/sopa/MainActivity.kt:363-379 | "Call mom and turn on WiFi" contains a radio trigger but places a call |
| Commands.ParseCallRule | app/src/main/java/com/example/sopa/MainActivity.kt:363-366 | whenever the text contains "call" in any case, the call goes to the extracted contact |
| Commands.ParseCallWithoutTo | app/src/main/java/com/example/sopa/MainActivity.kt:363-366 | a call without "to " goes to the whole spoken text, trimmed |
| Commands.ParseExampleCallWithoutTo | app/src/main/java/com/example/sopa/MainActivity.kt:363-366 | "call mom" places a call to "call mom" |
| Commands.ParseMessageRule | app/src/main/java/com/example/sopa/MainActivity.kt:363-371 | a text with "send message" but no "call", in any case, sends the extracted body to the extracted contact |
| Commands.ParseAlarmRule | app/src/main/java/com/example/sopa/MainActivity.kt:363-375 | a text with "set alarm" but neither "call" nor "send message" sets the alarm read from the extracted time |
| Commands.ParseAlarmWithoutFor | app/src/main/java/com/example/sopa/MainActivity.kt:372-375 | with the trigger present but no lower-case "set alarm for ", the whole trimmed text is read as the time |
| Commands.ParseExampleCapitalAlarm | app/src/main/java/com/example/sopa/MainActivity.kt:372-375 | "Set alarm for 9:30" fires the alarm rule but is rejected as an invalid time, because the delimiter is case-sensitive |
| Reconciler.OnStart | app/src/main/java/com/example/sopa/MainActivity.kt:186-207 | without a model nothing changes; otherwise the previous service is stopped, a new one listens, both views are cleared, and the last partial text and command mode are kept |
| Reconciler.OnStop | app/src/main/java/com/example/sopa/MainActivity.kt:210-218 | the current service, if any, is stopped, and nothing else changes; with no service the state is unchanged |
| Reconciler.OnPartial | app/src/main/java/com/example/sopa/MainActivity.kt:224-244 | the view is redrawn exactly when a partial text is present and differs from the remembered one, and then both show it; otherwise nothing changes |
| Reconciler.OnFinal | app/src/main/java/com/example/sopa/MainActivity.kt:255-275 | a present final text replaces the display and extends the dictation by the text and a space; it goes to the parser exactly in command mode, as the displayed text |
| Reconciler.ErrorText | app/src/main/java/com/example/sopa/MainActivity.kt:281-283 | the error text is "Error: " followed by the message, or by "null" when there is none |
| Reconciler.ErrorTextDistinguishes | app/src/main/java/com/example/sopa/MainActivity.kt:281-287 | two errors show the same text exactly when their messages agree, an absent message reading as "null", and no error shows the timeout text |
| Reconciler.Step | app/src/main/java/com/example/sopa/MainActivity.kt:246-287 | only a final text in command mode reaches the parser; a loaded model only becomes available and the toggle only flips command mode; an empty end-of-stream result and a failed load change nothing; errors and timeouts only overwrite the display |
| Reconciler.Run | app/src/main/java/com/example/sopa/MainActivity.kt:186-287 | over a sequence of events the display is redrawn at most once per event and at most one text per event reaches the parser |
| Reconciler.StepKeepsValid | app/src/main/java/com/example/sopa/MainActivity.kt:191-197 | no event leaves a superseded service running |
| Reconciler.RunKeepsValid | app/src/main/java/com/example/sopa/MainActivity.kt:186-218 | over any sequence of events every service but the current one stays stopped |
| Reconciler.AtMostOneListening | app/src/main/java/com/example/sopa/MainActivity.kt:191-197 | at most one service listens, and one does exactly when the current service is listening |
| Reconciler.StartListensAlone | app/src/main/java/com/example/sopa/MainActivity.kt:191-198 | after a start with the model loaded exactly one service listens |
| Reconciler.StopSilences | app/src/main/java/com/example/sopa/MainActivity.kt:210-213 | after a stop no service listens |
| Reconciler.RunListensAtMostOnce | app/src/main/java/com/example/sopa/MainActivity.kt:186-218 | from the initial screen no sequence of events ever has two services listening |
| Reconciler.RepeatedPartialDrawnOnce | app/src/main/java/com/example/sopa/MainActivity.kt:231-238 | a partial repeated any number of times is drawn once if new and never if equal to the remembered one; a new one changes only the remembered partial and the display, and a repeated one leaves the state alone |
| Reconciler.RememberedPartialIsLatest | app/src/main/java/com/example/sopa/MainActivity.kt:221-238 | the remembered partial text is the latest partial hypothesis received, whatever else happened in between |
| Reconciler.StalePartialHiddenAfterRestart | app/src/main/java/com/example/sopa/MainActivity.kt:186-238 | after a restart, a first partial equal to the previous one is not drawn and the display stays empty |
| Reconciler.ErrorOutlivesRepeatedPartial | app/src/main/java/com/example/sopa/MainActivity.kt:224-283 | an error message stays on screen when the recognizer then repeats its last partial text |
| Reconciler.StepDictation | app/src/main/java/com/example/sopa/MainActivity.kt:262-266 | every event but a start adds exactly its final text and a space to the dictation, or nothing |
| Reconciler.DictationIsTranscript | app/src/main/java/com/example/sopa/MainActivity.kt:262-266 | between starts the dictation grows by exactly the final texts, in order, each followed by a space |
| Reconciler.DictationSinceStart | app/src/main/java/com/example/sopa/MainActivity.kt:199-200 | after a start the dictation holds exactly the final texts received since |
| Reconciler.CommandsAreCommanded | app/src/main/java/com/example/sopa/MainActivity.kt:266-268 | the parser receives exactly the final texts that arrive while command mode is on, tracking each toggle |
| Reconciler.CommandModeFollowsToggles | app/src/main/java/com/example/sopa/MainActivity.kt:157-158 | command mode ends flipped once per press of the toggle |
| Reconciler.CommandModeOffParsesNothing | app/src/main/java/com/example/sopa/MainActivity.kt:266-268 | with command mode off and never toggled nothing reaches the parser |
| Reconciler.CommandFinalIsParsed | app/src/main/java/com/example/sopa/MainActivity.kt:262-268 | in command mode a final text is shown and handed to the parser exactly once |
| Reconciler.ToggleTwiceRestores | app/src/main/java/com/example/sopa/MainActivity.kt:157-158 | pressing the toggle twice restores the state, with no redraw and no command |
| Reconciler.StopIdempotent | app/src/main/java/com/example/sopa/MainActivity.kt:210-218 | stopping twice is stopping once |
| Screen.ParseAll | app/src/main/java/com/example/sopa/MainActivity.kt:361-387 | each text handed on is parsed on its own, in order |
| Screen.ParseAllAppend | app/src/main/java/com/example/sopa/MainActivity.kt:361-387 | parsing two batches of texts in a row is parsing their concatenation |
| Screen.Actions | app/src/main/java/com/example/sopa/MainActivity.kt:266-268 | a run of events sets off at most one action per event |
| Screen.ActionsAreParsedCommands | app/src/main/java/com/example/sopa/MainActivity.kt:266-268 | the actions are the parses of the final texts spoken while command mode is on |
| Screen.CommandFinalActs | app/src/main/java/com/example/sopa/MainActivity.kt:262-268 | a final result in command mode sets off exactly the action its text parses to |
| Screen.DictationActsNothing | app/src/main/java/com/example/sopa/MainActivity.kt:266-268 | with command mode off and never toggled no speech sets off an action |
| Screen.ActionsAppend | app/src/main/java/com/example/sopa/MainActivity.kt:246-287 | the actions of two runs in a row are those of the first followed by those of the second |

## Left out

- The user interface is not modelled: layout, button colours and labels, toasts and log lines. The main text view and the dictation view are modelled as two strings, and both start empty. The layout's placeholder text is not modelled.
- Vosk is not modelled: model files, the recognizer, audio capture and the 16 kHz sample rate. Each speech service is modelled only as listening or stopped. A start whose `Recognizer` or `SpeechService` constructor, or `startListening`, throws is not modelled: by then the previous service has already been stopped (`MainActivity.kt`, lines 192-194), so it would end with no service listening and both views left as they were.
- JSON decoding of hypotheses is not modelled. A hypothesis arrives already decoded as `Option<string>`. `None` stands for a null payload, malformed JSON or a missing "partial"/"text" key. All of these are dropped in the code.
- Threads and `runOnUiThread` are not modelled. Events arrive one at a time in the order the UI thread applies them. A partial's text is remembered at once but drawn later; the model treats the two as one step.
- Model loading is not modelled: copying the model from the app's assets into the cache (`cacheModelFromAssets`) and the loading thread. Both are reduced to the `ModelLoaded` and `ModelLoadFailed` events. A failed load only shows a toast. A second load thread, started by another permission result, would only set the model again.
- The effectors are not modelled: `makeCall`, `sendMessage`, `toggleWiFi`, the contact lookup, `AlarmManager` scheduling and `AlarmReceiver`. `Parse` stops at the action and its arguments. The lookup of a contact's number is I/O.
- Saving the dictation to a file, the save dialog, and the permission requests and their results are not modelled. These are I/O and platform flow outside the two state machines.
- KotlinStrings.ContainsIgnoreCase: folds ASCII letters only. On the JVM, `contains(ignoreCase = true)` also equates a few non-ASCII letters with ASCII ones: dotless ı and dotted İ with i, long ſ with s, and the Kelvin sign with k. None of these affects a text written in ASCII.
- KotlinStrings.IsWhitespace: covers the characters for which the JVM's `Char.isWhitespace` holds within the Basic Multilingual Plane. Strings are sequences of Unicode scalar values rather than UTF-16 code units, so surrogate pairs are not modelled.
- KotlinInt.ToIntOrNull: accepts ASCII digits only. The JVM's `Character.digit` also accepts the decimal digits of other scripts, such as Arabic-Indic digits.
- Commands.Parse: the parse of an alarm time stops at the hour and minute. Building the calendar instant from them, including how `Calendar` rolls over a value such as hour 25, is not modelled.
