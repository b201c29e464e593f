/**
 * The pure side of the state quiz: the answer options offered for a question, built from the
 * random draws the game makes, and the counting facts about distinct sequences that the game's
 * properties rest on.  Random choices are parameters: a shuffle is any rearrangement of the
 * list, `random.sample` is a sequence of distinct positions in the population it draws from.
 */
module StateQuiz {
  import opened Wrappers

  /** The options of one question: three sampled wrong answers and the right one. */
  const OptionCount := 4

  /** `[s for s in usa_states if s != current]`, in list order. */
  function Others(states: seq<string>, current: string): (r: seq<string>)
    ensures |r| <= |states|
    ensures forall s :: s in r ==> s in states && s != current
  {
    if states == [] then []
    else (if states[0] != current then [states[0]] else []) + Others(states[1..], current)
  }

  /** The population keeps exactly the states other than the current one. */
  lemma {:induction false} OthersMembers(states: seq<string>, current: string, s: string)
    ensures s in Others(states, current) <==> s in states && s != current
  {
    if states != [] {
      OthersMembers(states[1..], current, s);
      assert states == [states[0]] + states[1..];
    }
  }

  /** Drawn from distinct states that include the current one, the population is distinct and one shorter. */
  lemma {:induction false} OthersShape(states: seq<string>, current: string)
    requires Distinct(states) && current in states
    ensures |Others(states, current)| == |states| - 1
    ensures Distinct(Others(states, current))
  {
    var rest := states[1..];
    assert Distinct(rest) by {
      assert forall i :: 0 <= i < |rest| ==> rest[i] == states[i + 1];
    }
    if states[0] == current {
      assert current !in rest;
      OthersWithout(rest, current);
    } else {
      assert current in rest;
      OthersShape(rest, current);
      OthersMembers(rest, current, states[0]);
      assert states[0] !in rest;
      PrependDistinct(states[0], Others(rest, current));
    }
  }

  /** Without the current state in it, the population is the whole list. */
  lemma {:induction false} OthersWithout(states: seq<string>, current: string)
    requires current !in states
    ensures Others(states, current) == states
  {
    if states != [] {
      OthersWithout(states[1..], current);
      assert states == [states[0]] + states[1..];
    }
  }

  lemma PrependDistinct<T>(x: T, s: seq<T>)
    requires Distinct(s) && x !in s
    ensures Distinct([x] + s)
  {
    var t := [x] + s;
    forall i, j | 0 <= i < j < |t|
      ensures t[i] != t[j]
    {
      assert t[j] == s[j - 1];
      if i > 0 {
        assert t[i] == s[i - 1];
      }
    }
  }

  /** Positions valid for `pool`: each picks an element of it. */
  predicate Within(positions: seq<nat>, size: nat) {
    forall k :: 0 <= k < |positions| ==> positions[k] < size
  }

  /** The elements of `pool` at the given positions, in the order of the positions. */
  function Pick<T>(pool: seq<T>, positions: seq<nat>): (r: seq<T>)
    requires Within(positions, |pool|)
    ensures |r| == |positions|
  {
    seq(|positions|, k requires 0 <= k < |positions| => pool[positions[k]])
  }

  /** Distinct positions in a distinct pool pick distinct elements, each of them from the pool. */
  lemma PickDistinct<T>(pool: seq<T>, positions: seq<nat>)
    requires Within(positions, |pool|) && Distinct(pool) && Distinct(positions)
    ensures Distinct(Pick(pool, positions))
    ensures forall x :: x in Pick(pool, positions) ==> x in pool
  {
    var r := Pick(pool, positions);
    forall i, j | 0 <= i < j < |r|
      ensures r[i] != r[j]
    {
      assert positions[i] != positions[j];
    }
  }

  /** What `random.sample(population, 3)` may return, as positions in a population of `size`. */
  predicate IsSample(positions: seq<nat>, size: nat) {
    |positions| == OptionCount - 1 && Distinct(positions) && Within(positions, size)
  }

  /** What `random.shuffle` may do to a list of four options, as the positions each new slot takes from. */
  predicate IsArrangement(positions: seq<nat>) {
    |positions| == OptionCount && Distinct(positions) && Within(positions, OptionCount)
  }

  /** A rearrangement of four options uses every position, in particular the last one. */
  lemma ArrangementCoversLast(positions: seq<nat>)
    requires IsArrangement(positions)
    ensures OptionCount - 1 in positions
  {
    var a, b, c, d := positions[0], positions[1], positions[2], positions[3];
    assert a < 4 && b < 4 && c < 4 && d < 4;
    assert a != b && a != c && a != d && b != c && b != d && c != d;
    assert a == 3 || b == 3 || c == 3 || d == 3;
  }

  /**
   * The options `generate_buttons` shows for `current`: three states sampled from the others,
   * followed by `current`, then shuffled.
   */
  function Options(states: seq<string>, current: string, sample: seq<nat>, arrangement: seq<nat>): (r: seq<string>)
    requires Distinct(states) && current in states
    requires IsSample(sample, |states| - 1) && IsArrangement(arrangement)
    ensures |r| == OptionCount
  {
    OthersShape(states, current);
    Pick(Pick(Others(states, current), sample) + [current], arrangement)
  }

  /**
   * Four options with the current state exactly once and, being distinct, three other states;
   * every option is a state of the list.
   */
  lemma OptionsCorrect(states: seq<string>, current: string, sample: seq<nat>, arrangement: seq<nat>)
    requires Distinct(states) && current in states
    requires IsSample(sample, |states| - 1) && IsArrangement(arrangement)
    ensures var options := Options(states, current, sample, arrangement);
      |options| == OptionCount && Distinct(options) && current in options &&
      multiset(options)[current] == 1 &&
      (forall o :: o in options ==> o in states)
  {
    OthersShape(states, current);
    var population := Others(states, current);
    var wrong := Pick(population, sample);
    PickDistinct(population, sample);
    forall x | x in wrong
      ensures x in states && x != current
    {
      OthersMembers(states, current, x);
    }
    var pool := wrong + [current];
    PrependDistinct(current, wrong);
    assert Distinct(pool) by {
      forall i, j | 0 <= i < j < |pool|
        ensures pool[i] != pool[j]
      {
        if j == |wrong| {
          assert pool[i] in wrong;
        }
      }
    }
    var options := Pick(pool, arrangement);
    PickDistinct(pool, arrangement);
    ArrangementCoversLast(arrangement);
    var k :| 0 <= k < |arrangement| && arrangement[k] == OptionCount - 1;
    assert options[k] == current;
    DistinctCount(options, current);
    forall o | o in options
      ensures o in states
    {
      assert o in pool;
    }
    assert options == Options(states, current, sample, arrangement);
  }

  /** In a distinct sequence an element occurs once if it occurs at all. */
  lemma {:induction false} DistinctCount<T>(s: seq<T>, x: T)
    requires Distinct(s)
    ensures multiset(s)[x] == if x in s then 1 else 0
  {
    if s != [] {
      var rest := s[1..];
      assert s == [s[0]] + rest;
      assert Distinct(rest) by {
        assert forall i :: 0 <= i < |rest| ==> rest[i] == s[i + 1];
      }
      DistinctCount(rest, x);
      assert s[0] !in rest;
    }
  }

  /** A rearrangement of a distinct list holds every element of it exactly once. */
  lemma ShuffleCoversOnce(shuffle: seq<string>, states: seq<string>, s: string)
    requires multiset(shuffle) == multiset(states) && Distinct(states) && s in states
    ensures multiset(shuffle)[s] == 1 && s in shuffle
  {
    DistinctCount(states, s);
  }
}
