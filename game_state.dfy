/**
 * The newer revision of the round data (Game.h): a configuration record, the round
 * state (judge, prompt, every player's statement cards and their "used" bits), and
 * the game object that owns both.
 */
module GameState {
  import opened Prompt

  /** The three sizes a game is played with, stored as given. */
  datatype GameConfiguration = GameConfiguration(numOfPlayers: int, numOfRounds: int, numOfStatementCards: int)

  class GameState {
    var currentTsarIndex: int
    var currentPrompt: Prompt
    /** `statementCards[p][a]`: the text of card a of player p. */
    var statementCards: seq<seq<string>>
    /** `usedStatementCards[p][a]`: card a of player p was played and must be replaced. */
    var usedStatementCards: seq<seq<bool>>

    /** A row per player and a card per hand position, in both tables. */
    predicate Shaped(numOfPlayers: int, numOfStatementCards: int)
      reads this
    {
      |statementCards| == numOfPlayers && |usedStatementCards| == numOfPlayers
      && (forall p :: 0 <= p < numOfPlayers ==> |statementCards[p]| == numOfStatementCards)
      && (forall p :: 0 <= p < numOfPlayers ==> |usedStatementCards[p]| == numOfStatementCards)
    }

    /**
     * The state for a configuration: every player gets `numOfStatementCards` empty
     * cards, all marked used.  The judge and the prompt are left unset.  (Negative
     * sizes make `resize` throw, so the sizes must be natural numbers.)
     */
    constructor (configuration: GameConfiguration)
      requires configuration.numOfPlayers >= 0 && configuration.numOfStatementCards >= 0
      ensures Shaped(configuration.numOfPlayers, configuration.numOfStatementCards)
      ensures forall p, a :: 0 <= p < configuration.numOfPlayers && 0 <= a < configuration.numOfStatementCards ==>
                statementCards[p][a] == "" && usedStatementCards[p][a]
    {
      var emptyRow: seq<string> := [];
      var usedRow: seq<bool> := [];
      while |emptyRow| < configuration.numOfStatementCards
        invariant |emptyRow| == |usedRow| <= configuration.numOfStatementCards
        invariant forall a :: 0 <= a < |emptyRow| ==> emptyRow[a] == "" && usedRow[a]
      {
        emptyRow := emptyRow + [""];
        usedRow := usedRow + [true];
      }
      var cards: seq<seq<string>> := [];
      var used: seq<seq<bool>> := [];
      while |cards| < configuration.numOfPlayers
        invariant |cards| == |used| <= configuration.numOfPlayers
        invariant forall p :: 0 <= p < |cards| ==> cards[p] == emptyRow && used[p] == usedRow
      {
        cards := cards + [emptyRow];
        used := used + [usedRow];
      }
      statementCards := cards;
      usedStatementCards := used;
    }
  }

  class Game {
    var configuration: GameConfiguration
    const state: GameState

    /** The state has the shape the configuration asks for. */
    predicate Valid()
      reads this, state
    {
      state.Shaped(configuration.numOfPlayers, configuration.numOfStatementCards)
    }

    /** Stores the configuration and builds the matching state. */
    constructor (configuration: GameConfiguration)
      requires configuration.numOfPlayers >= 0 && configuration.numOfStatementCards >= 0
      ensures this.configuration == configuration && fresh(state) && Valid()
      ensures forall p, a :: 0 <= p < configuration.numOfPlayers && 0 <= a < configuration.numOfStatementCards ==>
                state.usedStatementCards[p][a]
    {
      this.configuration := configuration;
      state := new GameState(configuration);
    }

    /** Changes the number of rounds and nothing else. */
    method SetNumOfRounds(numOfRounds: int)
      modifies this`configuration
      ensures configuration == old(configuration).(numOfRounds := numOfRounds)
      ensures old(Valid()) ==> Valid()
    {
      configuration := configuration.(numOfRounds := numOfRounds);
    }

    /** Marks card `answerIndex` of player `playerIndex` as used; no other bit changes. */
    method SetPlayerStatementCardAsUsed(playerIndex: nat, answerIndex: nat)
      requires Valid()
      requires playerIndex < configuration.numOfPlayers && answerIndex < configuration.numOfStatementCards
      modifies state`usedStatementCards
      ensures Valid()
      ensures state.usedStatementCards
              == old(state.usedStatementCards)[playerIndex := old(state.usedStatementCards[playerIndex])[answerIndex := true]]
    {
      state.usedStatementCards := state.usedStatementCards[playerIndex :=
                                    state.usedStatementCards[playerIndex][answerIndex := true]];
    }

    /** Player `playerIndex`'s cards: a full hand of the configured size. */
    function GetStatementCardsOfPlayer(playerIndex: nat): (cards: seq<string>)
      requires Valid() && playerIndex < configuration.numOfPlayers
      reads this, state
      ensures |cards| == configuration.numOfStatementCards
      ensures cards == state.statementCards[playerIndex]
    {
      state.statementCards[playerIndex]
    }

    function GetGameConfiguration(): GameConfiguration
      reads this
    {
      configuration
    }

    function GetCurrentTsarIndex(): int
      reads this, state
    {
      state.currentTsarIndex
    }

    function GetCurrentPrompt(): Prompt
      reads this, state
    {
      state.currentPrompt
    }
  }
}
