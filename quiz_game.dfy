/**
 * The state quiz game: a shuffled list of states asked one by one, four answer buttons per
 * question, and the score.  Its event handlers are methods over the game's fields; the random
 * draws each handler may need are passed in as a `Draws` value.
 */
module QuizGame {
  import opened Wrappers
  import opened StateQuiz

  /**
   * The random draws of one handler: the order `random.shuffle` gives the list of states if the
   * game is reset, and the sample and arrangement `generate_buttons` uses for the next question.
   */
  datatype Draws = Draws(shuffle: seq<string>, sample: seq<nat>, arrangement: seq<nat>)

  /** The draws can be made from the list of states `states`. */
  predicate DrawsFor(d: Draws, states: seq<string>) {
    multiset(d.shuffle) == multiset(states) &&
    |states| >= 1 && IsSample(d.sample, |states| - 1) && IsArrangement(d.arrangement)
  }

  class Game {
    /** `usa_states`: the names of the states, without repetitions. */
    const usaStates: seq<string>
    var randomizedList: seq<string>
    var numberOfStates: nat
    var currentStateIndex: nat
    var currentState: Option<string>
    var score: nat
    var totalQuestions: nat
    /** The texts of the answer buttons, left to right. */
    var buttons: seq<string>
    /** The final scores announced by the "Quiz completed" message, one per finished game. */
    var finishedGames: seq<(nat, nat)>
    /** The states asked so far in this game, in order. */
    ghost var asked: seq<string>

    /**
     * Between events a question is on screen: the states asked so far are a prefix of this
     * game's list ending in the current one, one answer was given per earlier question, and the
     * buttons offer the current state with three others.
     */
    ghost predicate Valid()
      reads this
    {
      |usaStates| >= OptionCount && Distinct(usaStates) &&
      multiset(randomizedList) == multiset(usaStates) && numberOfStates == |randomizedList| &&
      1 <= currentStateIndex <= |randomizedList| &&
      currentState == Some(randomizedList[currentStateIndex - 1]) && currentState.value in usaStates &&
      asked == randomizedList[..currentStateIndex] &&
      totalQuestions == currentStateIndex - 1 && score <= totalQuestions &&
      ShowsOptions(buttons, currentState.value)
    }

    /** Four distinct buttons, all states, one of them `current`. */
    ghost predicate ShowsOptions(options: seq<string>, current: string)
      reads this
    {
      |options| == OptionCount && Distinct(options) && current in options &&
      multiset(options)[current] == 1 &&
      forall o :: o in options ==> o in usaStates
    }

    /** The window opens on the first question of a new game. */
    constructor (states: seq<string>, d: Draws)
      requires |states| >= OptionCount && Distinct(states) && DrawsFor(d, states)
      ensures Valid() && usaStates == states
      ensures randomizedList == d.shuffle && currentStateIndex == 1 && score == 0 && totalQuestions == 0
      ensures finishedGames == []
    {
      usaStates := states;
      randomizedList := [];
      numberOfStates := 0;
      currentStateIndex := 0;
      currentState := None;
      score := 0;
      totalQuestions := 0;
      buttons := [];
      finishedGames := [];
      asked := [];
      new;
      ResetGame(d);
    }

    /** `randomize_states`: a shuffled copy of the states. */
    method RandomizeStates(shuffle: seq<string>)
      requires multiset(shuffle) == multiset(usaStates)
      modifies this
      ensures randomizedList == shuffle && numberOfStates == |shuffle|
      ensures multiset(randomizedList) == multiset(usaStates)
      ensures currentStateIndex == old(currentStateIndex) && currentState == old(currentState)
      ensures score == old(score) && totalQuestions == old(totalQuestions) && buttons == old(buttons)
      ensures finishedGames == old(finishedGames) && asked == old(asked)
    {
      randomizedList := shuffle;
      numberOfStates := |randomizedList|;
    }

    /** `reset_game`: a new shuffled list, the counters back to 0, and the first question. */
    method ResetGame(d: Draws)
      requires |usaStates| >= OptionCount && Distinct(usaStates) && DrawsFor(d, usaStates)
      modifies this
      ensures Valid()
      ensures randomizedList == d.shuffle && currentStateIndex == 1 && currentState == Some(d.shuffle[0])
      ensures score == 0 && totalQuestions == 0 && asked == [d.shuffle[0]]
      ensures buttons == Options(usaStates, d.shuffle[0], d.sample, d.arrangement)
      ensures finishedGames == old(finishedGames)
    {
      randomizedList := [];
      RandomizeStates(d.shuffle);
      currentStateIndex := 0;
      score := 0;
      totalQuestions := 0;
      numberOfStates := |randomizedList|;
      buttons := [];
      asked := [];
      AskNext(d);
    }

    /**
     * The half of `next_question` that asks the next state of the list.  Only this half runs
     * when `reset_game` starts a game: the new list is never empty.
     */
    method AskNext(d: Draws)
      requires |usaStates| >= OptionCount && Distinct(usaStates) && DrawsFor(d, usaStates)
      requires multiset(randomizedList) == multiset(usaStates) && numberOfStates == |randomizedList|
      requires currentStateIndex < |randomizedList| && asked == randomizedList[..currentStateIndex]
      requires totalQuestions == currentStateIndex && score <= totalQuestions
      modifies this
      ensures Valid()
      ensures currentStateIndex == old(currentStateIndex) + 1
      ensures currentState == Some(randomizedList[old(currentStateIndex)])
      ensures asked == old(asked) + [randomizedList[old(currentStateIndex)]]
      ensures buttons == Options(usaStates, currentState.value, d.sample, d.arrangement)
      ensures randomizedList == old(randomizedList) && score == old(score) && totalQuestions == old(totalQuestions)
      ensures finishedGames == old(finishedGames)
    {
      var state := randomizedList[currentStateIndex];
      currentState := Some(state);
      currentStateIndex := currentStateIndex + 1;
      asked := asked + [state];
      assert randomizedList[..currentStateIndex] == randomizedList[..currentStateIndex - 1] + [state];
      ShuffleCoversOnce(randomizedList, usaStates, state) by {
        assert state in multiset(randomizedList);
      }
      GenerateButtons(d.sample, d.arrangement);
    }

    /** `next_question`: announce the final score and start over after the last state, else ask the next one. */
    method NextQuestion(d: Draws)
      requires |usaStates| >= OptionCount && Distinct(usaStates) && DrawsFor(d, usaStates)
      requires multiset(randomizedList) == multiset(usaStates) && numberOfStates == |randomizedList|
      requires currentStateIndex <= |randomizedList| && asked == randomizedList[..currentStateIndex]
      requires totalQuestions == currentStateIndex && score <= totalQuestions
      modifies this
      ensures Valid()
      ensures old(currentStateIndex) == |old(randomizedList)| ==>
        finishedGames == old(finishedGames) + [(old(score), old(totalQuestions))] &&
        randomizedList == d.shuffle && currentStateIndex == 1 && score == 0 && totalQuestions == 0
      ensures old(currentStateIndex) < |old(randomizedList)| ==>
        finishedGames == old(finishedGames) && randomizedList == old(randomizedList) &&
        currentStateIndex == old(currentStateIndex) + 1 &&
        currentState == Some(randomizedList[old(currentStateIndex)]) &&
        score == old(score) && totalQuestions == old(totalQuestions)
      ensures currentState.Some? && buttons == Options(usaStates, currentState.value, d.sample, d.arrangement)
    {
      if currentStateIndex == |randomizedList| {
        finishedGames := finishedGames + [(score, totalQuestions)];
        ResetGame(d);
        return;
      }
      AskNext(d);
    }

    /** `generate_buttons`: three states sampled from the others and the current one, shuffled. */
    method GenerateButtons(sample: seq<nat>, arrangement: seq<nat>)
      requires currentState.Some? && currentState.value in usaStates && Distinct(usaStates)
      requires IsSample(sample, |usaStates| - 1) && IsArrangement(arrangement)
      modifies this
      ensures randomizedList == old(randomizedList) && numberOfStates == old(numberOfStates)
      ensures currentStateIndex == old(currentStateIndex) && currentState == old(currentState)
      ensures score == old(score) && totalQuestions == old(totalQuestions)
      ensures finishedGames == old(finishedGames) && asked == old(asked)
      ensures buttons == Options(usaStates, currentState.value, sample, arrangement)
      ensures ShowsOptions(buttons, currentState.value)
    {
      buttons := [];
      var current := currentState.value;
      OptionsCorrect(usaStates, current, sample, arrangement);
      OthersShape(usaStates, current);
      var population := Others(usaStates, current);
      var randomStates := Pick(population, sample);
      var options := Pick(randomStates + [current], arrangement);
      assert options == Options(usaStates, current, sample, arrangement);
      var i := 0;
      while i < |options|
        invariant 0 <= i <= |options|
        invariant buttons == options[..i]
        invariant randomizedList == old(randomizedList) && numberOfStates == old(numberOfStates)
        invariant currentStateIndex == old(currentStateIndex) && currentState == old(currentState)
        invariant score == old(score) && totalQuestions == old(totalQuestions)
        invariant finishedGames == old(finishedGames) && asked == old(asked)
      {
        buttons := buttons + [options[i]];
        i := i + 1;
      }
      assert buttons == options;
    }

    /**
     * `check_answer`: count the answer, score it if it names the current state, and go on to the
     * next question.
     */
    method CheckAnswer(selected: string, d: Draws)
      requires Valid() && DrawsFor(d, usaStates)
      modifies this
      ensures Valid()
      ensures var answered, scored := old(totalQuestions) + 1, old(score) + (if Some(selected) == old(currentState) then 1 else 0);
        if old(currentStateIndex) == |old(randomizedList)| then
          finishedGames == old(finishedGames) + [(scored, answered)] &&
          randomizedList == d.shuffle && currentStateIndex == 1 && score == 0 && totalQuestions == 0
        else
          finishedGames == old(finishedGames) && randomizedList == old(randomizedList) &&
          currentStateIndex == old(currentStateIndex) + 1 &&
          currentState == Some(randomizedList[old(currentStateIndex)]) &&
          totalQuestions == answered && score == scored
      ensures buttons == Options(usaStates, currentState.value, d.sample, d.arrangement)
    {
      totalQuestions := totalQuestions + 1;
      if Some(selected) == currentState {
        score := score + 1;
      }
      NextQuestion(d);
    }

    /** A finished game has asked every state exactly once, and announces a total of one answer per state. */
    lemma GameCoversStates()
      requires Valid() && currentStateIndex == |randomizedList|
      ensures forall s :: s in usaStates ==> multiset(asked)[s] == 1
      ensures totalQuestions + 1 == |usaStates|
    {
      assert asked == randomizedList;
      forall s | s in usaStates
        ensures multiset(asked)[s] == 1
      {
        ShuffleCoversOnce(randomizedList, usaStates, s);
      }
      assert |multiset(randomizedList)| == |multiset(usaStates)|;
    }
  }
}
