# Loki-bot controller, modelled in Dafny

Loki-bot is a desk robot driven by one Python program, `final.py`. It listens
to the room in five-second recordings. After two minutes without a
conversation it falls asleep and starts a sleep animation. While asleep, it
is meant to hush a loud room (as written it never does; see Findings), and it
wakes up when the transcript of a recording holds its name. When it hears its name, it sends the transcript to a chat assistant.
The reply ends with an emotion tag such as `I am fine. [happy]`. The robot
speaks the text and, at the same time, plays the emotion: the image files of
the emotion's folder, in name order, go to the display while two servos follow
the emotion's pose table, and the whole sequence plays twice.

The model has six modules:

- `Text` (`text.dfy`): the Python string operations the controller relies on.
  These are `in`, `rsplit` at the last occurrence, `strip`, `lower`,
  `endswith` and `sorted` on names.
- `Emotions` (`emotions.dfy`): the nine keys of the emotion table, the pose
  table of each animated emotion, and `move_servo`'s duty value.
- `Assistant` (`assistant.dfy`): how `handle_interaction` splits the
  assistant's reply into the text to speak and the emotion to play.
- `Expression` (`expression.dfy`): `display_emotion_with_servo` as a method
  with its two loops, and the emotion functions.
- `Loudness` (`loudness.dfy`): the root-mean-square measurement of
  `record_audio`, as written and as intended (see Findings).
- `Session` (`session.dfy`): the main loop. `Step` is the transition of one
  turn of `while True`, with the second inactivity check of the awake branch.
  `Run` chains turns. The class `Controller` holds `sleep_mode` and
  `last_interaction_time` as fields and runs the loop statement by statement;
  its methods are proved to follow `Step` and `Run`.

Everything the loop reads from the outside world arrives as a parameter: the
clock, the root mean square of the recording, the transcript (`None` when
recognition fails), the assistant's raw reply, and the clock when a
conversation ends. What the controller does comes back as a list of actions:
an emotion function run to its end, the sleep animation started on a thread, a
recording, a transcription, a conversation with the parsed reply, and the
one-second pause.

Two behaviours of the code are worth knowing. The wake test is a substring
test, so "lokii" wakes the robot. A reply with " [" followed by an unknown tag
is still cut at the " [": the text before it is spoken and the emotion is
`neutral`.

## Model

| member | source | states |
|---|---|---|
| `Text.Contains` | final.py:208 | Python's `p in s`: a text holds only patterns no longer than itself. |
| `Text.FindLast` | final.py:208-209 | The position `rsplit(" [", 1)` splits at: an occurrence of the pattern with no later one, and none exactly when the pattern does not occur. |
| `Text.AbsentCharNotContained` | final.py:208 | A text lacking a character of the pattern does not contain the pattern. |
| `Text.OccursRight` | final.py:209 | An occurrence inside the right part of a concatenation is an occurrence in that part, shifted. |
| `Text.Strip` | final.py:210-211 | `strip`: the result is no longer than the input, and is empty or starts and ends with characters that are not stripped. |
| `Text.StripSpec` | final.py:210-211 | `strip` is empty exactly when every character is stripped, and otherwise is the slice from the first to the last kept character. |
| `Text.StripKeeps` | final.py:210 | Text whose ends are not strippable comes back unchanged. |
| `Text.StripPadded` | final.py:211 | Strippable padding around a core with kept ends is removed and the core is returned. |
| `Text.StripIdempotent` | final.py:210-211 | Stripping twice is stripping once. |
| `Text.Lower` | final.py:243 | `lower()` never shortens the text. |
| `Text.LowerChar` | final.py:243 | Python's `lower()` of one character: never empty, never an ASCII capital, and lower-case letters and digits stay as they are. |
| `Text.LowerHasNoCapitals` | final.py:211 | Lower-cased text holds no ASCII capital. |
| `Text.LowerAppend` | final.py:243 | `lower` distributes over concatenation. |
| `Text.LowerOfLower` | final.py:211 | `lower` leaves text without upper-case characters unchanged. |
| `Text.LowerIdempotent` | final.py:211 | Lower-casing twice is lower-casing once. |
| `Text.EndsWith` | final.py:66 | A text that ends with a suffix contains it. |
| `Text.NameLe` | final.py:66 | Python's `<=` on strings: a prefix is ordered at or before the text it begins. |
| `Text.NameLeTotal` | final.py:66 | Any two names are ordered one way or the other. |
| `Text.NameLeAntisymmetric` | final.py:66 | Names ordered both ways are equal. |
| `Text.NameLeTransitive` | final.py:66 | The name order is transitive. |
| `Text.NameOrderIsTotal` | final.py:66 | Python's string comparison is a total order. |
| `Text.PrependSorted` | final.py:66 | An element at or below a sorted list can be put in front of it. |
| `Text.Insert` | final.py:66 | Insertion into a sorted list keeps it sorted and adds exactly that element. |
| `Text.SortBy` | final.py:66 | `sorted`: the result is in order and is a permutation of the input. |
| `Text.SortedHeadIsLeast` | final.py:66 | The head of a sorted list is at or below each of its elements. |
| `Text.SortedUnique` | final.py:66 | Two sorted lists with the same elements are equal, so sorting does not depend on input order. |
| `Emotions.Name` | final.py:183-193 | Every key of the emotion table is a non-empty word of lower-case ASCII letters. |
| `Emotions.NameInjective` | final.py:183-193 | Different emotions have different keys. |
| `Emotions.Lookup` | final.py:216-217 | `tag in emotion_functions`: finds the emotion whose key is the tag, and finds none exactly when no key equals it. |
| `Emotions.LookupName` | final.py:183-193 | Looking up an emotion's own key finds that emotion. |
| `Emotions.Repeat` | final.py:83 | `block * n`: `n` copies of the block, periodic with the block's length, holding nothing else. |
| `Emotions.PoseTable` | final.py:82-112 | The pose table of each animated emotion has 20 poses, 10 for excited and dizzy. |
| `Emotions.PoseTableInRange` | final.py:82-112 | Every pose table has 20 poses (10 for excited and dizzy) and every pose lies within 150 to 600 on both channels. |
| `Emotions.Duty` | final.py:42-43 | `int(position / 4096 * 65535)`: the value truncated toward zero, bracketed within one step of 4096. |
| `Emotions.DutyMonotone` | final.py:42-43 | A larger position never gives a smaller duty value. |
| `Emotions.DutyMonotoneNat` | final.py:43 | Monotonicity for non-negative positions. |
| `Emotions.DutyRange` | final.py:37-43 | Positions 150 to 600 give duty values 2399 to 9599; positions 0 to 4096 fit the 16-bit register. |
| `Assistant.CleanTag` | final.py:211 | `strip("] ").lower()`: the cleaned tag holds no ASCII capital, and is empty when the tag holds only "]" and spaces. |
| `Assistant.SplitAt` | final.py:209-210 | The text before the separator, stripped: it has no whitespace at either end and is no longer than the part before the separator. |
| `Assistant.ResolveTag` | final.py:211-217 | The emotion of a tag is the one whose key equals the stripped, lower-cased tag, and `neutral` when there is none. |
| `Assistant.ParseReply` | final.py:208-217 | A reply without " [" is spoken whole with `neutral`. |
| `Assistant.ParseAtLast` | final.py:208-211 | With a separator, the reply is split at its last occurrence: stripped text before it, resolved tag after it. |
| `Assistant.LastSeparatorUnique` | final.py:209 | Only one position is the last separator. |
| `Assistant.EmotionIsKnown` | final.py:208-217 | The resolved emotion is not `neutral` only if the reply carries a known tag after its last " [" (and, like every emotion, it is a key of the table). |
| `Assistant.TaggedSeparator` | final.py:208-209 | In text, " [", tag, "]" the split falls right after the text when the tag holds no " [". |
| `Assistant.ParseTagged` | final.py:208-211 | Such a reply parses to the text and the tag's emotion when the text has no surrounding whitespace. |
| `Assistant.CleanName` | final.py:211 | An emotion key followed by "]" cleans back to the key. |
| `Assistant.StripName` | final.py:211 | Stripping "]" off a key followed by "]" gives the key. |
| `Assistant.LowerName` | final.py:211 | Keys are unchanged by lower-casing. |
| `Assistant.ResolveName` | final.py:211-217 | A key followed by "]" resolves to its emotion. |
| `Assistant.ParseComposed` | final.py:208-217 | Round trip: text, " [", emotion key, "]" parses back to the same text and emotion. |
| `Assistant.NoSeparatorSpokenWhole` | final.py:212-214 | A reply with no "[" is spoken whole with `neutral`. |
| `Assistant.UnknownTagStillSplits` | final.py:209-217 | An unknown tag gives `neutral`, yet only the text before the separator is spoken. |
| `Assistant.TaggedExample` | final.py:208-217 | "I am fine. [happy]" gives "I am fine." with `happy`. |
| `Assistant.UntaggedExample` | final.py:212-214 | "I am fine." is spoken whole with `neutral`. |
| `Assistant.UnknownTagExample` | final.py:209-217 | "Ok [xyz]" gives "Ok" with `neutral`. |
| `Assistant.UpperCaseTagExample` | final.py:209-217 | "Wow [ EXCITED ]" gives "Wow" with `excited`. |
| `Loudness.RecordingChunks` | final.py:125 | `int(rate / chunk * duration)` for the default arguments: the largest number of whole chunks within the recording time (the floating-point quotient is exact because the chunk of 1024 is a power of two). |
| `Loudness.DefaultRecording` | final.py:120-127 | With the defaults a recording holds 215 chunks, 220160 samples. |
| `Loudness.Wrap16` | final.py:134 | int16 arithmetic: the result lies in the 16-bit range and agrees with the true value modulo 65536. |
| `Loudness.SquaresAsWritten` | final.py:133-134 | `audio_data**2` on int16 data: each square wrapped into 16 bits. |
| `Loudness.MeanSquareAsWritten` | final.py:133-134 | `np.mean(audio_data**2)` as written: the mean of the wrapped squares never exceeds 32767. |
| `Loudness.LoudAsWritten` | final.py:133-134 | `rms > 5000` for the measurement as written never holds, whatever the recording. |
| `Loudness.DefaultRecordingHidesNoise` | final.py:120-134 | A recording of the default 220160 samples, each beyond 5000 in size, is loud, yet reads as quiet as written. |
| `Loudness.SumSquares` | final.py:134 | The true sum of squares is zero exactly when every sample is zero. |
| `Loudness.MeanSquare` | final.py:134 | The intended `np.mean(audio_data**2)`: never negative, and zero exactly when every sample is zero. |
| `Loudness.Loud` | final.py:134 | A loud recording holds at least one sample beyond 5000 in size. |
| `Loudness.QuietSamples` | final.py:134 | Samples no louder than 5000 each are never loud together: their sum of squares is at most 5000 squared per sample. |
| `Loudness.AboveNoiseLimit` | final.py:236 | `rms > 5000`: for a non-negative root mean square, the same as its square exceeding 5000 squared. |
| `Loudness.RmsThreshold` | final.py:134 | For the true root mean square, `rms > 5000` holds exactly when the recording is loud. |
| `Loudness.AllLoudSamples` | final.py:134 | A recording whose every sample exceeds 5000 in size is loud. |
| `Loudness.WrapCounterexample` | final.py:133-134 | The sample 6000 squares to 36000000, which wraps to 20736: quiet as written, loud as intended. |
| `Session.Wakes` | final.py:243 | `user_question and "loki" in user_question.lower()`: only a transcript whose lower-cased form is at least four characters long can wake the robot. |
| `Session.Noisy` | final.py:236 | `rms > 5000` on the cycle's report: for a non-negative report, it holds exactly when the report's square exceeds 5000 squared. |
| `Session.IdleTooLong` | final.py:228 | The inactivity condition, also that of final.py:253: it holds only while awake and more than 120 seconds after the last interaction. |
| `Session.EmptyTestRedundant` | final.py:243 | The empty-transcript test adds nothing to the wake test. |
| `Session.WakesWhenLowered` | final.py:243 | Any spelling that lower-cases to "loki", anywhere in the transcript, wakes the robot. |
| `Session.WakesAnywhere` | final.py:250 | "loki" anywhere in the transcript wakes the robot. |
| `Session.NothingHeard` | final.py:243 | A failed transcription never wakes the robot. |
| `Session.LongerWordWakes` | final.py:243 | "lokii" wakes the robot: the test is a substring test. |
| `Session.UpperCaseWakes` | final.py:243 | "HEY LOKI" wakes the robot. |
| `Session.KelvinSignWakes` | final.py:243 | "LO" KELVIN SIGN "I" lower-cases to "loki" and wakes the robot. |
| `Session.ShortWordSleeps` | final.py:243 | "lok" does not wake the robot. |
| `Session.IdleCheck` | final.py:228-231 | The inactivity check: the robot is asleep afterwards exactly when it was asleep or idle for over 120 seconds, the sleep animation starts exactly in the second case, and the last interaction is unchanged. |
| `Session.Step` | final.py:225-258 | One turn of the loop: the robot can be asleep afterwards only if it slept or fell asleep at the turn's start, and a sleeping robot is awake afterwards only if it heard its name. |
| `Session.RecheckNeverFires` | final.py:253-256 | The second inactivity check never puts the robot to sleep. |
| `Session.StartsSleepingOnlyWhenIdle` | final.py:228-231 | A turn starts the sleep animation exactly when the robot is awake and idle for over 120 seconds, and then once. |
| `Session.AsleepAfterStep` | final.py:225-258 | After a turn the robot sleeps exactly when it slept or fell asleep, and was not woken by its name in a quiet room. |
| `Session.HushesOnlyWhileAsleep` | final.py:235-240 | A reported root mean square above 5000 is hushed exactly when the robot sleeps (as written the report never exceeds 5000; see Findings); it then stays asleep, the turn's start becomes the last interaction, and nothing is transcribed, answered or waited for. |
| `Session.RespondsToWakeWord` | final.py:242-251 | The robot converses exactly when it hears its name and is not hushing; it answers with the parsed reply, is awake afterwards, and the conversation's end becomes the last interaction. |
| `Session.LastInteractionMoves` | final.py:239-251 | The last interaction changes only on a hush (to the turn's start) or a conversation (to its end). |
| `Session.PausesUnlessSleepingBranchEnds` | final.py:240-258 | The one-second pause is skipped exactly when a sleeping robot hushes or wakes. |
| `Session.AsWrittenNeverHushes` | final.py:233-236 | With the root mean square computed as written, the robot never hushes. |
| `Session.HushesLoudRecording` | final.py:233-236 | With the true root mean square, a sleeping robot hushes exactly when the recording is loud. |
| `Session.RecordsOnce` | final.py:233 | Every turn records exactly once. |
| `Session.Run` | final.py:225-258 | Turns one after another: a run of `n` turns records exactly `n` times. |
| `Session.RunPrefix` | final.py:225 | A run of turns extends turn by turn. |
| `Session.StepBalance` | final.py:228-256 | In one turn, sleep animations started plus being awake afterwards never exceed conversations plus being awake before. |
| `Session.SleepStartsBalanced` | final.py:225-258 | Over any run, the sleep animation starts at most once more than there were conversations. |
| `Session.SleepsThroughSilence` | final.py:235-247 | A sleeping robot that never hears its name stays asleep, never converses and never restarts the sleep animation. |
| `Session.Controller.constructor` | final.py:196-199 | Start-up: the neutral expression plays, then the robot is awake with the clock as last interaction. |
| `Session.Controller.CheckIdle` | final.py:228-231 | The inactivity check as statements, proved to follow `IdleCheck`. |
| `Session.Controller.Cycle` | final.py:225-258 | One turn of the loop as statements, proved to produce `Step`'s new state and actions. |
| `Session.Controller.RunCycles` | final.py:225-258 | The loop over a stretch of observations, proved to produce `Run`'s state and actions. |
| `Expression.IsImage` | final.py:66 | `f.endswith('.png') or f.endswith('.jpg')`: an image name has at least four characters, the fourth from the end a dot. |
| `Expression.ImageNames` | final.py:66 | The listing's image names, each image name as often as in the listing and nothing else. |
| `Expression.Frames` | final.py:66 | The frames are sorted by name and are exactly the listing's image names. |
| `Expression.FramesUnique` | final.py:66 | Any name-sorted list of the listing's image names is the list of frames. |
| `Expression.FramesIgnoreListingOrder` | final.py:66 | The order of the folder listing does not change the frames. |
| `Expression.NoImagesNoFrames` | final.py:66-70 | A listing without images gives no frames. |
| `Expression.FramesExample` | final.py:66 | "b.png", "notes.txt", "a.jpg" give the frames "a.jpg", "b.png". |
| `Expression.UpperCaseExtensionIgnored` | final.py:66 | "A.PNG" is not an image: the extension test is case-sensitive. |
| `Expression.Pass` | final.py:73 | `zip(frames, servo_positions)`: as many steps as the shorter of the two lists, never more than either. |
| `Expression.Playback` | final.py:68-79 | The two rounds: an even number of steps, the second half repeating the first, and nothing without frames. |
| `Expression.PlaybackShape` | final.py:72-79 | Playback shows frame `k` with pose `k` for `k` below the shorter length, then repeats the same steps. |
| `Expression.PlaybackUsesPrefix` | final.py:73 | Every step pairs a frame with the pose at the same position. |
| `Expression.Play` | final.py:65-79 | `display_emotion_with_servo` as statements, proved to produce the playback of the sorted frames. |
| `Expression.PlayRounds` | final.py:72-79 | The two rounds over the zipped frames and poses, proved to produce the playback. |
| `Expression.Express` | final.py:82-117 | The emotion functions as statements, running `Play` and its loops, proved to produce `Effects`, the function the lemmas about emotions use. |
| `Expression.Effects` | final.py:82-117 | `shush` alone starts with something other than a frame; every effect of another emotion shows a frame. |
| `Expression.AnimationDutiesInRange` | final.py:82-112 | Every effect of an animated emotion shows a frame with duty values between 2399 and 9599. |
| `Expression.PlaybackDutiesInRange` | final.py:72-79 | Poses within 150 to 600 give duty values within 2399 to 9599. |
| `Expression.AnimationLength` | final.py:82-112 | An animated emotion shows twice the shorter of its frames and its pose table, never more than 40 steps. |
| `Expression.NoFramesNoAnimation` | final.py:68-70 | An animated emotion whose folder holds no image does nothing. |
| `Expression.ShushShowsNothing` | final.py:114-117 | `shush` plays its sound first and shows nothing. |

## Left out

- Audio capture, speech recognition, the chat assistant, speech synthesis, sound playback, image loading and the display are left out. Their results are parameters of a turn, and their uses are actions or effects.
- The hardware set-up is left out: the I2C bus, the PCA9685 at 60 Hz, and the display pins.
- Threads are left out. The sleep animation started on a thread, and the emotion played while the reply is spoken, appear as single actions in program order.
- The prompt text sent to the assistant and the spoken "please wait" message are folded into the conversation action.
- The pause lengths (0.1 s per frame, 1 s per turn) and the log messages are left out.
- `Session.Controller.RunCycles`: covers any finite stretch of the endless loop, not the loop as a whole.
- Clock readings and the root mean square are exact reals. Floating-point rounding is not modelled.
- A `nan` root mean square is outside the model. As written, a negative mean square gives `nan`, which compares false like a quiet room.
- `Emotions.Duty`: the floating-point product `position / 4096 * 65535` is exact only for positions up to 2^37 in size. The model uses the exact value.
- `Text.Lower`: maps only A to Z, KELVIN SIGN and LATIN CAPITAL LETTER I WITH DOT ABOVE. Python lower-cases other characters to non-ASCII characters. Those cannot change a comparison with the ASCII keys or with "loki".
- Failures of the outside calls are left out: the model assumes every call returns. In the program, an error from the chat assistant's request (final.py:157, with no `try`) leaves `handle_interaction` and ends the main loop (final.py:245 and 251). `os.listdir` on a missing emotion folder (final.py:66) raises too: during start-up (`neutral()`, final.py:196) that ends the program, and on the sleep thread it ends only that thread. An error of the audio device in `record_audio` (final.py:121 and 126) ends the main loop. `Session.Step` always completes a turn, so none of these endings is represented.
- Folder paths are left out. Each emotion function receives the listing of its own folder.

## Findings

| source | as written | input that shows it | evidently intended | confidence | as-written member | corrected member |
|---|---|---|---|---|---|---|
| final.py:133-134 | `audio_data**2` squares the int16 samples in int16, so each square wraps modulo 65536. The mean square is then at most 32767, the root mean square stays below 182, and the `rms > 5000` branch at line 236 never runs. | A recording of the sample 6000: its square 36000000 wraps to 20736. | Square in a wider type, so the root mean square is the true one and a loud room is hushed. | high, not executed | `Loudness.LoudAsWritten` | `Loudness.RmsThreshold` |
