# Cards Against Humanity over sockets: a Dafny model of the sequential core

The repository is a networked fill-in-the-blank card game. A server deals every
player a hand of answer cards and picks a judge (the "tsar") and a question each
round. Every player but the judge plays one card per blank. The server fans the
submissions out, the judge picks one, and its player scores a point. The client
and the server each run a small command console.

This project models the sequential logic around the lock-step round protocol:

- the round data on the server: hands, "used" bits and redealing
  (`Game.cpp`, and the newer `Game.h`);
- the index dealer and the `rand()`-based generator (`GameDataManager.h`,
  `StdRandGenerator.h`);
- the cursor-based card and question decks (`AnswerRepository.cpp`,
  `QuestionRepository.cpp`);
- the line-based records `Question`, `Prompt` and `StatementCard`, with their
  `>>` and `<<` operators;
- the server's roster, submissions, scoring, shuffle, reset and winner
  (`Server.cpp`), and the player record (`Client.h`);
- the byte framing of every round message: each server `send*` is a pure
  encoder, and each client `receive*` is a decoder proved to invert it (and the
  other way round for the player's card and judge picks);
- the player's round state and console input rules (`Client.cpp`);
- both consoles: splitting a line, validating the command and checking the
  number of arguments (`Interface.cpp`, `Command.cpp`).

Modules, one per source file or component:

- `Wrappers`: `Option` and `Result`.
- `Wire`: bytes, 4-byte integers and length-prefixed strings.
- `LineIo`: `std::getline`, `atoi` and decimal printing.
- `Shuffle`: `std::random_shuffle` as a sequence of swaps.
- `Question`, `Prompt`, `StatementCard`, `AnswerRepository`, `QuestionRepository`.
- `Game` (`Game.cpp`) and `GameState` (`Game.h`).
- `StdRandGenerator`, `GameDataManager`.
- `Protocol`: every message's encoder and decoder.
- `Server`, `Player` (the server's `Client.h`), `Client` (`Client.cpp`).
- `Command`, `Console` (what both `Interface.cpp` files share),
  `ClientInterface`, `ServerInterface`.

Modelling choices:

- Integers on the wire are four bytes, little-endian two's complement. The
  source copies `sizeof(int)` host-order bytes.
- A `std::string` holds bytes, so a string a sender frames must have every
  character below 256 (`Wire.IsFrameable`).
- A receive that runs out of bytes, or reads a negative string length (which
  makes `resize` throw), yields a `Fault`. In the source such a failure ends the
  receiving thread and the program with it. So the model decodes the whole
  message first and changes no state when decoding fails.
- The bytes a peer sent are an `inbox` argument, and each receive returns the
  bytes it did not read.
- The lines typed at the console are a sequence `inputs`. When they run out
  while the program still waits for a valid line, the result is `None`.
- `rand()` values are arguments (`randValue`) or a field of values still to come
  (`GameDataManager.rands`).
- `random_shuffle` is an arbitrary list of in-range swaps, `Shuffle.ApplySwaps`,
  which can produce any permutation.
- Constructors that read files take the loaded list instead.
- `Server.cpp` calls three `Game` members that `Game.cpp` does not define.
  `setUsedAnswer` sets one used bit, as `setPlayerStatementCardAsUsed` does in
  `Game.h`. `getAnswers` returns the player's hand. `getQuestion` returns the
  round's question.
- `Game.h` declares the `Game` constructor but does not define it. The model's
  constructor stores the configuration and builds the matching `GameState`.
- The constructors of `Question`, `Prompt`, `StatementCard` and `Command` are
  datatype constructors. They store their arguments unchanged.

## Model

| member | source | states |
|---|---|---|
| `Game.Game.constructor` | Server/Server/Source/Game.cpp:7-27 | the hand table has numOfPlayers rows of numOfAnswers slots, and every used bit starts set |
| `Game.Game.GenerateTsarIndex` | Server/Server/Source/Game.cpp:42-46 | the judge is always player 0 |
| `Game.Game.GenerateQuestion` | Server/Server/Source/Game.cpp:48-51 | the round's question is the deck's question at the cursor, and the cursor moves on by one |
| `Game.Game.RefillHand` | Server/Server/Source/Game.cpp:55-62 | the loop over one hand yields `RedealHand` of the old hand and bits, clears every bit, and draws exactly as many cards as bits were set |
| `Game.Game.GenerateAnswer` | Server/Server/Source/Game.cpp:53-63 | only the given player's row changes: it is redealt from the deck at the cursor, its bits are all cleared, and the cursor advances by its number of set bits |
| `Game.Game.GenerateAnswers` | Server/Server/Source/Game.cpp:33-39 | every player but the judge is redealt in player order from successive deck positions; the judge's hand and bits are unchanged |
| `Game.Game.GenerateData` | Server/Server/Source/Game.cpp:29-40 | judge 0, the next question, and every non-judge hand redealt with its bits cleared |
| `Game.Game.SetUsedAnswer` | Server/Server/Headers/Game.h:75-78 | sets exactly bit [player][slot] and leaves every other bit as it was |
| `Game.RedealSlots` | Server/Server/Source/Game.cpp:55-62 | a slot whose bit was clear keeps its content; a used slot holds its own slot index and the deck card at cursor + the number of used slots before it |
| `Game.RedealDrawsDistinctCards` | Server/Server/Source/Game.cpp:55-61 | two redealt slots draw from two different deck positions, all within the set-bit count after the cursor |
| `Game.NoCardDealtTwice` | Server/Server/Source/Game.cpp:33-39 | across the players of one deal, no deck position goes to two different hands: a redealt slot of an earlier player draws a position below every draw of a later player |
| `GameState.GameState.constructor` | Server/Server/Headers/Game.h:39-52 | numOfPlayers rows of numOfStatementCards entries in both tables, every card empty and every used bit true |
| `GameState.Game.constructor` | Server/Server/Headers/Game.h:63-66 | stores the configuration and a fresh state of its shape, with every used bit true |
| `GameState.Game.SetNumOfRounds` | Server/Server/Headers/Game.h:70-73 | only the configuration's round count changes |
| `GameState.Game.SetPlayerStatementCardAsUsed` | Server/Server/Headers/Game.h:75-78 | sets exactly bit [player][card] and changes nothing else |
| `GameState.Game.GetStatementCardsOfPlayer` | Server/Server/Headers/Game.h:100-103 | returns row p of the cards: a full hand of the configured size |
| `StdRandGenerator.GenerateIntInRange` | Server/Server/Headers/StdRandGenerator.h:17-24 | throws iff maxValue < minValue; otherwise the result is congruent to the rand() value modulo maxValue and lies in [minValue, minValue + abs(maxValue)) |
| `StdRandGenerator.EqualBoundsAccepted` | Server/Server/Headers/StdRandGenerator.h:19-22 | equal bounds do not throw |
| `StdRandGenerator.IndexFromZero` | Server/Server/Headers/StdRandGenerator.h:23 | from 0 with maxValue > 0 the result is in [0, maxValue) |
| `StdRandGenerator.OutOfRangeAsWritten` | Server/Server/Headers/StdRandGenerator.h:23 | with bounds 2 and 5 and rand() = 4 the result is 6, outside the range |
| `StdRandGenerator.GenerateIntInRangeCorrected` | Server/Server/Headers/StdRandGenerator.h:17-24 | throws iff the bounds are reversed; otherwise the result is in [minValue, maxValue) |
| `StdRandGenerator.CorrectedAgreesFromZero` | Server/Server/Headers/StdRandGenerator.h:23 | for a lower bound of 0, the only one the game uses, the corrected generator returns the same result |
| `GameDataManager.Draw` | Server/Server/Headers/GameDataManager.h:31 | a draw for a repository of size n is an index in [0, n) |
| `GameDataManager.GameDataManager.AddRepository` | Server/Server/Headers/GameDataManager.h:20-23 | the name's used set becomes empty; every other name's set is unchanged |
| `GameDataManager.GameDataManager.GenerateIntInRange` | Server/Server/Headers/GameDataManager.h:31 | reversed bounds throw without consuming a rand() value; otherwise exactly one value is consumed |
| `GameDataManager.GameDataManager.GenerateUniqueRepositoryIndex` | Server/Server/Headers/GameDataManager.h:25-40 | the empty exhaustion check raises nothing; the FIRST draw is returned and added to the name's used set; redraws go on until one is unused and only end the loop; other names are untouched |
| `GameDataManager.IndexAsWritten` | Server/Server/Headers/GameDataManager.h:31-39 | the returned index is the first draw, in [0, size) |
| `GameDataManager.RepeatedIndexAsWritten` | Server/Server/Headers/GameDataManager.h:33-36 | with index 0 used and rand() giving 0 then 1, index 0 is returned again, while the corrected dealer returns 1 |
| `GameDataManager.FreshFirstDrawAgrees` | Server/Server/Headers/GameDataManager.h:31-39 | when the first draw is unused, the returned index is fresh and agrees with the corrected dealer |
| `GameDataManager.IndexCorrected` | Server/Server/Headers/GameDataManager.h:31-39 | the corrected result is in [0, size) and not yet used |
| `GameDataManager.ExhaustedHasNoFreshDraw` | Server/Server/Headers/GameDataManager.h:27-37 | once every index of the repository is used, no draw is fresh, so the redraw loop as written cannot end |
| `GameDataManager.Indices` | Server/Server/Headers/GameDataManager.h:27 | the indices of a repository of size n are exactly [0, n) |
| `GameDataManager.IndicesCount` | Server/Server/Headers/GameDataManager.h:27 | a repository of size n has n indices |
| `GameDataManager.FullIffExhausted` | Server/Server/Headers/GameDataManager.h:27 | the size test of the exhaustion check holds exactly when every index is used |
| `GameDataManager.GameDataManager.GenerateUniqueRepositoryIndexCorrected` | Server/Server/Headers/GameDataManager.h:27-39 | with every index used, reports the exhaustion and draws nothing; otherwise returns an index not used before and adds it to the name's used set; a negative size is the generator's exception |
| `GameDataManager.GameDataManager.GeneratePlayerIndex` | Server/Server/Headers/GameDataManager.h:42-45 | one generator call on [0, n): an index below n, or the exception for a negative n |
| `Shuffle.ApplySwaps` | Server/Server/Source/AnswerRepository.cpp:18 | a shuffle keeps the length and the multiset of elements |
| `Shuffle.ShuffledElementIsOriginal` | Server/Server/Source/AnswerRepository.cpp:18 | every element after the shuffle is an element of the original list |
| `AnswerRepository.AnswerRepository.constructor` | Server/Server/Source/AnswerRepository.cpp:7-20 | the stored list is a permutation of the lines read, and the cursor is 0 |
| `AnswerRepository.AnswerRepository.GetAnswer` | Server/Server/Source/AnswerRepository.cpp:22-25 | returns the card at the cursor and advances the cursor by exactly 1; the list is unchanged; needs cursor < size |
| `QuestionRepository.QuestionRepository.constructor` | Server/Server/Source/QuestionRepository.cpp:7-20 | the stored list is a permutation of the questions parsed, and the cursor is 0 |
| `QuestionRepository.QuestionRepository.GetQuestion` | Server/Server/Source/QuestionRepository.cpp:22-25 | returns the question at the cursor and advances the cursor by 1; needs cursor < size |
| `LineIo.GetLine` | Server/Server/Headers/StatementCard.h:18 | `getline` fails only on an empty stream; otherwise the line holds no delimiter and is followed by the delimiter and the rest, or is the whole stream |
| `LineIo.AtoiOfDecimal` | Server/Server/Headers/Question.h:22 | `atoi` reads back every integer that `<<` printed |
| `LineIo.ReadWrittenTextAndCount` | Server/Server/Headers/Prompt.h:17-31 | reading the two lines written for a text and a count gives them back when the text is one line |
| `LineIo.JoinPieces` | Client/Client/Source/Interface.cpp:71-76 | splitting on spaces loses nothing but one trailing space |
| `LineIo.PiecesHaveNoDelimiter` | Client/Client/Source/Interface.cpp:71-76 | no piece contains a space |
| `LineIo.ReadTextAndCountShape` | Server/Server/Headers/Question.h:17-24 | the two `getline` reads succeed iff a newline ends the first line before the last character; the text is that first line and the count is `atoi` of the second, after which the rest of the stream is left |
| `Question.Parse` | Server/Server/Headers/Question.h:17-24 | the stream is read iff it holds a first line and the start of a second; the text is the first line and the blank count is `atoi` of the second line, and what follows is left in the stream |
| `Question.ParsePrint` | Server/Server/Headers/Question.h:17-31 | reading what `<<` wrote gives back the text, the blank count and the rest of the stream, when the text has no newline |
| `Question.ParseNonNumericBlanks` | Server/Server/Headers/Question.h:22 | a blank-count line with no number, the empty one included, gives 0 blanks |
| `Prompt.Parse` | Server/Server/Headers/Prompt.h:17-24 | the stream is read iff it holds a first line and the start of a second; the text is the first line and the blank count is `atoi` of the second line, and what follows is left in the stream |
| `Prompt.ParsePrint` | Server/Server/Headers/Prompt.h:17-31 | reading what `<<` wrote gives back the prompt and the rest of the stream, when the text has no newline |
| `Prompt.ParseNonNumericBlanks` | Server/Server/Headers/Prompt.h:22 | a blank-count line with no number gives 0 blanks |
| `StatementCard.Parse` | Server/Server/Headers/StatementCard.h:16-20 | fails only on an empty stream; otherwise consumes exactly one line and stores it without the newline |
| `StatementCard.ParsePrint` | Server/Server/Headers/StatementCard.h:16-26 | reading a printed card gives it back, and the rest of the stream, when its text has no newline |
| `Wire.DecodeInt32` | Client/Client/Source/Client.cpp:262 | reading an int succeeds iff four bytes are left, and consumes exactly four |
| `Wire.ValueOfBytes` | Server/Server/Source/Server.cpp:311 | a number below 256^k is what its k little-endian bytes stand for |
| `Wire.BytesOfValue` | Client/Client/Source/Client.cpp:262 | any k bytes are the k little-endian bytes of the number they stand for |
| `Wire.DecodeEncodeInt32` | Server/Server/Source/Server.cpp:311 | every int32 reads back as itself, whatever follows it |
| `Wire.EncodeDecodeInt32` | Client/Client/Source/Client.cpp:262 | any four bytes are the encoding of the int they read as |
| `Wire.DecodeEncodeString` | Server/Server/Source/Server.cpp:322-324 | a length-prefixed string reads back as itself, whatever follows it |
| `Wire.EncodeDecodeString` | Client/Client/Source/Client.cpp:89-92 | whatever reads as a string is exactly a framed string followed by the rest |
| `Protocol.DecodePlayerList` | Client/Client/Source/Client.cpp:78-94 | a negative count fails as `resize` does; otherwise exactly count usernames are read |
| `Protocol.DecodeEncodePlayerList` | Client/Client/Source/Client.cpp:78-94 | the client reads exactly the usernames `sendPlayerList` (Server.cpp:314-326) sent, in order |
| `Protocol.DecodeEncodeQuestion` | Client/Client/Source/Client.cpp:270-277 | the client recovers the text and blank count `sendQuestion` (Server.cpp:348-355) sent |
| `Protocol.DecodeEncodeAnswers` | Client/Client/Source/Client.cpp:279-294 | the client reads back every (slot, text) pair `sendAnswers` (Server.cpp:357-371) sent, in order |
| `Protocol.EncodeAnswerChoices` | Server/Server/Source/Server.cpp:373-394 | the message starts with the count \|clients\| - 1 |
| `Protocol.DecodeAnswerChoices` | Client/Client/Source/Client.cpp:296-314 | reads as many submissions as the count says (none when it is negative), each of exactly numOfBlanks texts |
| `Protocol.DecodeEncodeAnswerChoices` | Client/Client/Source/Client.cpp:296-314 | the client reads back, in the server's list order, the first numOfBlanks texts of each of the first \|clients\| - 1 submissions `sendAnswerChoices` sent |
| `Protocol.DecodeEncodeTsarChoice` | Client/Client/Source/Client.cpp:316-321 | the client reads back the winner's index and the chosen submission index that `sendTsarChoice` (Server.cpp:396-401) sent |
| `Protocol.ChosenCards` | Client/Client/Source/Client.cpp:244-251 | blank i is sent as card index choice[i] - '0' - 1 with that card's text |
| `Protocol.DecodeEncodeChoice` | Server/Server/Source/Server.cpp:209-226 | the server reads back, blank by blank, the card index and text the client's `sendChoice` sent |
| `Protocol.DecodeEncodeTsarPick` | Server/Server/Source/Server.cpp:228-231 | the server reads the judge's pick as `atoi(choice) - 1`, as the client's `sendTsarChoice` sent it |
| `Server.Server.constructor` | Server/Server/Source/Server.cpp:10-26 | no players, no submissions, and the counters and flags of the initializer list cleared; no two players are equal under `operator==` |
| `Server.Server.UniquePlayersIffDistinctUsernames` | Server/Server/Headers/Client.h:23 | no two roster players are equal under `operator==` exactly when the roster's usernames are pairwise distinct |
| `Server.Server.ValidUsername` | Server/Server/Source/Server.cpp:281-296 | true iff no roster player has the same username |
| `Server.Server.AcceptOne` | Server/Server/Source/Server.cpp:251-261 | one connection becomes a fresh player scoring 0 with the username it sent, and joins the roster iff no player has that username |
| `Server.Server.AcceptConnections` | Server/Server/Source/Server.cpp:242-269 | the roster's usernames become `Admit` of the arrivals (a free username joins until the roster is full); earlier players stay in place, new players are fresh objects scoring 0, every connection is handled while there is room, and no two roster players are equal under `operator==` |
| `Server.AdmitExtends` | Server/Server/Source/Server.cpp:256-261 | admission only appends usernames that arrived |
| `Server.AdmitKeepsDistinct` | Server/Server/Source/Server.cpp:256-261 | roster usernames stay pairwise distinct |
| `Server.AdmitWithinCapacity` | Server/Server/Source/Server.cpp:244-261 | the roster never exceeds the number of players |
| `Server.MarkUsedBits` | Server/Server/Source/Server.cpp:216-217 | a bit is set after marking iff it was set before or a received card names its slot |
| `Server.Server.ReceiveAnswerChoice` | Server/Server/Source/Server.cpp:209-226 | marks every received card's slot used for that player and no other bit, and appends exactly one (player, texts) entry of numOfBlanks texts |
| `Server.Server.ReceiveTsarChoice` | Server/Server/Source/Server.cpp:228-233 | adds exactly 1 to the score of the player who made the chosen submission; other scores and all usernames are unchanged |
| `Server.Server.CreditWinner` | Server/Server/Source/Server.cpp:232 | the winner's score rises by 1, no other score or username changes, and the roster stays free of equal players |
| `Server.Server.ShufflePlayerChoices` | Server/Server/Source/Server.cpp:118 | the submissions are only permuted |
| `Server.ShuffleKeepsSubmissions` | Server/Server/Source/Server.cpp:118 | each entry after the shuffle is a received (player, texts) pair, whole, so scoring (232) and the broadcast (399) still name the right player |
| `Server.Server.ResetFlags` | Server/Server/Source/Server.cpp:410-423 | every counter 0, every flag false, no submissions |
| `Server.Server.Winner` | Server/Server/Source/Server.cpp:100 | the first player holding the highest score |
| `Player.Client.constructor` | Server/Server/Headers/Client.h:10-15 | a new player scores 0 |
| `Player.Client.SetUsername` | Server/Server/Headers/Client.h:17 | only the username changes |
| `Player.Client.IncrementScore` | Server/Server/Headers/Client.h:22 | the score rises by exactly 1 |
| `Player.Client.Equals` | Server/Server/Headers/Client.h:23 | two players are equal iff their usernames are; the server's roster invariant says no two of its players are |
| `Client.Client.constructor` | Client/Client/Source/Client.cpp:7-23 | every round flag starts false |
| `Client.Client.ReceivePlayerList` | Client/Client/Source/Client.cpp:78-94 | one entry per username received, in order, each with score 0 |
| `Client.Client.ReceiveNumOfAnswers` | Client/Client/Source/Client.cpp:101-106 | the hand is resized to the number received; a negative number fails |
| `Client.Resized` | Client/Client/Source/Client.cpp:105 | `resize` keeps the first n entries and pads with empty strings |
| `Client.Client.ReceiveQuestion` | Client/Client/Source/Client.cpp:270-277 | stores the received text and blank count |
| `Client.Client.ReceiveAnswers` | Client/Client/Source/Client.cpp:279-294 | each received card is stored at the slot sent with it (needs slot < hand size) |
| `Client.PlacedSlot` | Client/Client/Source/Client.cpp:283-293 | a slot no received card names is unchanged; otherwise it holds the last card naming it |
| `Client.PlacedUntouched` | Client/Client/Source/Client.cpp:283-293 | a slot that no received card names keeps its text |
| `Client.PlacedLastWriter` | Client/Client/Source/Client.cpp:283-293 | a slot holds the text of the last received card naming it |
| `Client.OwnSlotsReplaceHand` | Client/Client/Source/Client.cpp:279-294 | a full hand sent with every card at its own slot replaces the hand |
| `Client.Client.ReceiveAnswerChoices` | Client/Client/Source/Client.cpp:296-314 | appends exactly the decoded submissions, each of questionNumOfBlanks texts |
| `Client.Client.ReceiveTsarChoice` | Client/Client/Source/Client.cpp:316-321 | adds exactly 1 to the winner's score, leaves other entries unchanged, and stores both indices |
| `Client.NextCardInput` | Client/Client/Source/Client.cpp:134-155 | the first line at or after a position that passes the card checks; every line before it fails them |
| `Client.Client.ReadCardPick` | Client/Client/Source/Client.cpp:132-155 | the retry loop for one blank stops at the first accepted line, checking against an empty list of picks |
| `Client.Client.ReadCardChoices` | Client/Client/Source/Client.cpp:129-156 | the choice built is the concatenation of one accepted line per blank, as `CardChoices` defines it |
| `Client.AcceptedPicksStartInHand` | Client/Client/Source/Client.cpp:141 | every accepted card line starts with a digit from 1 to the hand size |
| `Client.MultiCharacterPickAsWritten` | Client/Client/Source/Client.cpp:137 | the `&&` check accepts "1a"; the choice sent then names slot 48 for the second blank |
| `Client.SameCardTwiceAsWritten` | Client/Client/Source/Client.cpp:133 | the same card fills two blanks; the corrected rules refuse the repeat |
| `Client.CorrectedPicksAreSendable` | Client/Client/Source/Client.cpp:129-156 | with the corrected checks, one single-digit pick per blank, naming distinct cards of the hand |
| `Client.NextJudgeInput` | Client/Client/Source/Client.cpp:168-183 | the first line that passes the judge's checks; every line before it fails them |
| `Client.Client.ReadTsarChoice` | Client/Client/Source/Client.cpp:166-183 | the judge's retry loop returns the first accepted line |
| `Client.NonDigitJudgePickAsWritten` | Client/Client/Source/Client.cpp:171 | the `&&` check accepts ":" among eleven players, which is sent as -1 |
| `Client.MultiDigitJudgePickAsWritten` | Client/Client/Source/Client.cpp:171 | the `&&` check accepts "12" among three players, which is sent as 11 |
| `Client.CorrectedJudgePickInRange` | Client/Client/Source/Client.cpp:171-175 | with the corrected check every accepted pick is sent as an index in range |
| `Client.Client.ResetFlags` | Client/Client/Source/Client.cpp:391-402 | every flag false and no submissions |
| `Client.Client.SetUsername` | Client/Client/Headers/Client.h:22 | the username becomes the given one |
| `Command.Call` | Client/Client/Source/Command.cpp:11-18 | throws "Invalid number of arguments!" or runs the command once with the same arguments |
| `Command.UnlimitedAcceptsAll` | Client/Client/Source/Command.cpp:13 | an arity of -1 accepts any argument count |
| `Command.FixedArity` | Client/Client/Source/Command.cpp:13-16 | a non-negative arity runs iff the argument count equals it |
| `Command.OtherNegativeArityRejects` | Client/Client/Source/Command.cpp:13-16 | any other negative arity, converted to `size_t`, rejects every argument list |
| `Console.ParseInput` | Client/Client/Source/Interface.cpp:66-77 | the command and the arguments are the successive space-delimited `getline` pieces (the same code as Server/Server/Source/Interface.cpp:54-65) |
| `Console.ValidateInput` | Client/Client/Source/Interface.cpp:79-89 | "No command entered!" for an empty command, "Invalid command!" for an unregistered one, and accepted otherwise |
| `Console.Echo` | Client/Client/Source/Interface.cpp:104-111 | prints every argument followed by a space, then a newline |
| `Console.EchoedWords` | Server/Server/Source/Interface.cpp:91-98 | echoing words typed one space apart prints them back as typed |
| `Console.Interpret` | Server/Server/Source/Interface.cpp:24-28 | an empty line is never parsed or dispatched |
| `Console.SplittingOnSpaces` | Client/Client/Source/Interface.cpp:71-76 | a doubled space gives an empty argument, a single trailing space none |
| `Console.LeadingSpaceRejected` | Client/Client/Source/Interface.cpp:81-84 | a line starting with a space is rejected with "No command entered!" |
| `Console.InterpretWords` | Client/Client/Source/Interface.cpp:30-35 | a registered command typed with the right number of space-free arguments runs with exactly those arguments |
| `ClientInterface.Interface.constructor` | Client/Client/Source/Interface.cpp:6-11 | not connected, with the four commands registered |
| `ClientInterface.Interface.SetupCommands` | Client/Client/Source/Interface.cpp:91-97 | registers exit 0, echo unlimited, setuser 1, connect 0 |
| `ClientInterface.Interface.Exit` | Client/Client/Source/Interface.cpp:99-102 | the input loop stops |
| `ClientInterface.Interface.SetUsername` | Client/Client/Source/Interface.cpp:113-116 | the player's username becomes the first argument |
| `ClientInterface.Interface.ConnectToServer` | Client/Client/Source/Interface.cpp:118-128 | "Already connected" when connected; otherwise connected becomes true and running false |
| `ClientInterface.Interface.ProcessLine` | Client/Client/Source/Interface.cpp:19-50 | one turn of the console: what it prints and how running, connected and the username change, as `Interpret` decides |
| `ClientInterface.RegisteredCommandsRun` | Client/Client/Source/Interface.cpp:93-96 | "exit" and "connect" with no arguments run |
| `ClientInterface.SetUserArity` | Client/Client/Source/Interface.cpp:95 | "setuser" with one word runs with that word |
| `ClientInterface.EchoRuns` | Client/Client/Source/Interface.cpp:94 | "echo" followed by any space-free words runs with exactly those words |
| `ClientInterface.EchoLine` | Client/Client/Source/Interface.cpp:104-111 | "echo" with words prints the words back |
| `ServerInterface.Interface.constructor` | Server/Server/Source/Interface.cpp:7-11 | the three commands are registered |
| `ServerInterface.Interface.SetupCommands` | Server/Server/Source/Interface.cpp:79-84 | registers exit 0, echo unlimited, start 0 |
| `ServerInterface.Interface.Exit` | Server/Server/Source/Interface.cpp:86-89 | the input loop stops |
| `ServerInterface.Interface.StartServer` | Server/Server/Source/Interface.cpp:100-104 | after the game the input loop stops |
| `ServerInterface.Interface.ProcessLine` | Server/Server/Source/Interface.cpp:13-40 | one turn of the console: what it prints, and takingInput cleared by exit or start |
| `ServerInterface.ServerLines` | Server/Server/Source/Interface.cpp:24-28 | an empty line does nothing; "exit" and "start" run; "start" with an argument is refused |

## Findings

| source | as written | input that shows it | evidently intended | confidence | as-written member | corrected member |
|---|---|---|---|---|---|---|
| Server/Server/Headers/GameDataManager.h:27-30 | the exhaustion check has an empty body, so with every index of the repository used the redraw loop never ends | size 1 with index 0 used: every draw is 0, which is used | report the exhausted repository instead of drawing | high, not executed | `GameDataManager.ExhaustedHasNoFreshDraw` | `GameDataManager.GameDataManager.GenerateUniqueRepositoryIndexCorrected` |
| Server/Server/Headers/GameDataManager.h:35 | the redraw declares a new `index` that hides the outer one, so the first draw is recorded and returned even when it was already used | index 0 used, `rand()` gives 0 then 1: index 0 is handed out again | return and record the draw that ended the loop, an unused index | high, not executed | `GameDataManager.RepeatedIndexAsWritten` | `GameDataManager.GameDataManager.GenerateUniqueRepositoryIndexCorrected` |
| Server/Server/Headers/StdRandGenerator.h:23 | `rand() % maxValue + minValue` lies in [minValue, minValue + maxValue) | bounds 2 and 5 with `rand()` = 4 give 6 | a value in [minValue, maxValue) | medium (every call in the game uses minValue 0, where both agree), not executed | `StdRandGenerator.OutOfRangeAsWritten` | `StdRandGenerator.GenerateIntInRangeCorrected` |
| Client/Client/Source/Client.cpp:137 | `&&` rejects only lines that are both not one character long and not starting with a digit | "1a" with one card: the choice sent is "1a1", and its second character names slot 48 | accept exactly one digit | high, not executed | `Client.MultiCharacterPickAsWritten` | `Client.CorrectedPicksAreSendable` |
| Client/Client/Source/Client.cpp:133 | `selectedAnswers` is created afresh for each blank, so the duplicate check never rejects | "1", "1" for two blanks: the same card fills both | refuse a card already picked this round | high, not executed | `Client.SameCardTwiceAsWritten` | `Client.CorrectedPicksAreSendable` |
| Client/Client/Source/Client.cpp:171 | the same `&&` in the judge's check | "12" among three players is sent as 11; ":" among eleven is sent as -1 | accept exactly one digit | high, not executed | `Client.MultiDigitJudgePickAsWritten` | `Client.CorrectedJudgePickInRange` |

The server and client classes follow the code as written. So `Client.Client.ReadCardChoices`,
`Client.Client.ReadTsarChoice` and `GameDataManager.GameDataManager.GenerateUniqueRepositoryIndex`
keep the quirks. The corrected definitions sit beside them: `CardChoices` and
`JudgeInputAccepted` with `corrected` set, `IndexCorrected`, and `GenerateIntInRangeCorrected`.

## Left out

- The thread bodies and their synchronisation: `gameLogic`, `sendClient` and `receiveClient` in `Server.cpp`, the client's `send` and `receive` loops, every condition variable and mutex, `CounterLock.h` and `FlagLock.h`. Only the sequential helpers they call are modelled.
- Sockets: network set-up, `Bind`/`Listen`/`Accept`/`Select`, `SendAll`/`RecieveAll`, the join-validity boolean, the confirmation booleans, and the `sendPlayerID`, `sendNumOfRounds`, `sendNumOfAnswers` and `sendTsarIndex` single-int messages. These are I/O through a library that is not shown. The framing of the round messages is modelled as pure encoders and decoders.
- Host byte order: one fixed little-endian 4-byte encoding is used instead.
- File loading: `loadSettings` and the repositories' file reads. The constructors take the loaded list.
- Randomness: `srand`, `rand` and `random_shuffle` are arguments, as described above.
- Console output: `notify`, `display*`, `system("cls")`, the `run` loops themselves (one turn is `ProcessLine`), and `client->start()` and `m_server->start()` after connecting or starting.
- `Protocol.EncodeAnswerChoices`: a failed send inside the inner loop is caught and reported, and the loop goes on. The model has no failing sends.
- `Server.Server.ReceiveAnswerChoice`: the source sets each used bit as soon as that card's index arrives. After a fault mid-message the earlier bits stay set, but the receiving thread then ends. The model decodes the whole submission first and changes nothing on a fault.
- `Client.Client.ReceivePlayerList`, `Client.Client.ReceiveAnswers`, `Client.Client.ReceiveAnswerChoices`: likewise, the state after a mid-message fault is not modelled, because the source ends the thread on it.
- `Client.Client.ReceiveTsarChoice`: the point is given before the second index is read, as in the source. A fault on that second read leaves the point given.
- `LineIo.Atoi`: overflow, which C leaves undefined, is not modelled; the model's integers are unbounded.
- `Wire.IsFrameable`: strings longer than an `int` can hold, and characters above 255, are outside the model.
- `Command.Call`: the arity is compared after its conversion to a 64-bit `size_t`; argument lists longer than 2^31 are not considered.
- `Client.FirstDigit`: `isdigit` on a negative `char` is undefined in C; the model reads such a byte as not a digit.
- The `std::string` input of the client's `requestInput` (`std::cin >> input`) never holds white space; the model accepts any line and is thus more general.
- `Game.Game.constructor`, `GameState.GameState.constructor`, `GameState.Game.constructor`: the sizes are taken as natural numbers. In the source a negative player count, or a negative card count with at least one player, makes `resize` throw `std::length_error`; that exception path is not modelled, because a constructor here cannot return an error.
- `GameState.Game`: the `Game.h` constructor body, `generateRoundData` and the repositories it takes are declared but not defined in the source files of this model.
