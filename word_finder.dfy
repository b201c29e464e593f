/**
 * The word solver window: the two letter fields, the length slider, the font-size counter, the
 * loaded word list, the Find button and the result list.  The file dialog and the reading of the
 * file are parameters of `LoadFile`; dialogs and the Wiktionary link are not modelled.
 */
module WordFinder {
  import opened Wrappers
  import opened WordText
  import opened WordSearch

  const MinWordLength := 4
  const MaxWordLength := 15
  const MinFontSize := 10
  const MaxFontSize := 24

  /** The status line. */
  datatype Status = LoadPrompt | LoadedCount(words: nat) | SearchComplete(found: nat)

  /** What a press of "Load Word File" ended in. */
  datatype LoadOutcome = Cancelled | ReadFailed | EmptyFile | Loaded(words: nat)

  /** `update_button_state`'s condition. */
  predicate FindCondition(mandatory: string, additional: string, words: seq<string>) {
    |mandatory| == 1 && |additional| == 6 && |words| > 0
  }

  class App {
    var mandatory: string
    var additional: string
    var wordLength: int
    var fontSize: int
    var words: seq<string>
    var findEnabled: bool
    var results: seq<string>
    var countLabel: nat
    var status: Status

    ghost predicate Valid()
      reads this
    {
      |mandatory| <= 1 &&
      MinWordLength <= wordLength <= MaxWordLength &&
      MinFontSize <= fontSize <= MaxFontSize
    }

    constructor ()
      ensures Valid()
      ensures mandatory == "" && additional == "" && wordLength == 7 && fontSize == 12
      ensures words == [] && !findEnabled && results == [] && countLabel == 0 && status == LoadPrompt
    {
      mandatory := "";
      additional := "";
      wordLength := 7;
      fontSize := 12;
      words := [];
      findEnabled := false;
      results := [];
      countLabel := 0;
      status := LoadPrompt;
    }

    /** `update_button_state`. */
    method UpdateButtonState()
      modifies this
      ensures findEnabled == FindCondition(mandatory, additional, words)
      ensures mandatory == old(mandatory) && additional == old(additional) && words == old(words)
      ensures wordLength == old(wordLength) && fontSize == old(fontSize)
      ensures results == old(results) && countLabel == old(countLabel) && status == old(status)
    {
      if |mandatory| == 1 && |additional| == 6 && |words| > 0 {
        findEnabled := true;
      } else {
        findEnabled := false;
      }
    }

    /** The mandatory field's text became `value`. */
    method SetMandatory(value: string)
      requires Valid()
      modifies this
      ensures Valid()
      ensures mandatory == NormalizeMandatory(value)
      ensures findEnabled == FindCondition(mandatory, additional, words)
      ensures additional == old(additional) && words == old(words)
      ensures wordLength == old(wordLength) && fontSize == old(fontSize)
      ensures results == old(results) && countLabel == old(countLabel) && status == old(status)
    {
      if |value| > 1 {
        mandatory := [value[0]];
      } else if |value| == 1 && !IsAlpha(value[0]) {
        mandatory := "";
      } else {
        mandatory := LowerString(value);
      }
      UpdateButtonState();
    }

    /** The loop of `validate_additional_chars`: keep each character the first time it is seen. */
    static method UniqueChars(cleaned: string) returns (unique: string)
      ensures unique == Dedup(cleaned)
    {
      var seen: set<char> := {};
      unique := [];
      var k := 0;
      while k < |cleaned|
        invariant 0 <= k <= |cleaned|
        invariant unique == Dedup(cleaned[..k])
        invariant forall c :: c in seen <==> c in unique
      {
        assert cleaned[..k + 1][..k] == cleaned[..k];
        var c := cleaned[k];
        if c !in seen {
          seen := seen + {c};
          unique := unique + [c];
        }
        k := k + 1;
      }
      assert cleaned[..k] == cleaned;
    }

    /** The additional field's text became `value`. */
    method SetAdditional(value: string)
      requires Valid()
      modifies this
      ensures Valid()
      ensures additional == CleanAdditional(value, mandatory)
      ensures findEnabled == FindCondition(mandatory, additional, words)
      ensures mandatory == old(mandatory) && words == old(words)
      ensures wordLength == old(wordLength) && fontSize == old(fontSize)
      ensures results == old(results) && countLabel == old(countLabel) && status == old(status)
    {
      var cleaned := LowerLetters(value);
      var unique := UniqueChars(cleaned);
      if |unique| > 6 {
        unique := unique[..6];
      }
      if mandatory != "" {
        unique := RemoveMandatory(unique, mandatory);
      }
      additional := unique;
      UpdateButtonState();
    }

    /** The slider moved to `n`; the slider offers 4 to 15 only. */
    method SetWordLength(n: int)
      requires Valid() && MinWordLength <= n <= MaxWordLength
      modifies this
      ensures Valid() && wordLength == n
      ensures mandatory == old(mandatory) && additional == old(additional) && words == old(words)
      ensures findEnabled == old(findEnabled) && fontSize == old(fontSize)
      ensures results == old(results) && countLabel == old(countLabel) && status == old(status)
    {
      wordLength := n;
    }

    /**
     * "Load Word File": `chosen` is whether a file was picked in the dialog, `contents` its lines
     * or `None` when opening or reading it failed.  An empty result replaces the word list but
     * leaves the Find button as it was.
     */
    method LoadFile(chosen: bool, contents: Option<seq<string>>) returns (outcome: LoadOutcome)
      requires Valid()
      modifies this
      ensures Valid()
      ensures !chosen ==> outcome == Cancelled && words == old(words) && status == old(status) && findEnabled == old(findEnabled)
      ensures chosen && contents.None? ==> outcome == ReadFailed && words == old(words) && status == old(status) && findEnabled == old(findEnabled)
      ensures chosen && contents.Some? ==> words == CleanLines(contents.value)
      ensures chosen && contents.Some? && words == [] ==> outcome == EmptyFile && status == old(status) && findEnabled == old(findEnabled)
      ensures chosen && contents.Some? && words != [] ==>
        outcome == Loaded(|words|) && status == LoadedCount(|words|) && findEnabled == FindCondition(mandatory, additional, words)
      ensures mandatory == old(mandatory) && additional == old(additional)
      ensures wordLength == old(wordLength) && fontSize == old(fontSize)
      ensures results == old(results) && countLabel == old(countLabel)
    {
      if !chosen {
        return Cancelled;
      }
      if contents.None? {
        return ReadFailed;
      }
      words := CleanLines(contents.value);
      if words == [] {
        return EmptyFile;
      }
      status := LoadedCount(|words|);
      UpdateButtonState();
      outcome := Loaded(|words|);
    }

    /** "Find Words": list the matching loaded words in Python's string order, and count them. */
    method FindWords()
      requires Valid()
      modifies this
      ensures Valid()
      ensures var m := LowerString(mandatory);
        var a := LowerString(additional);
        Sorted(results) && HoldsMatches(results, words, m, a, wordLength) &&
        results == Sort(MatchingWords(words, m, a, wordLength))
      ensures countLabel == |results| && status == SearchComplete(|results|)
      ensures mandatory == old(mandatory) && additional == old(additional) && words == old(words)
      ensures wordLength == old(wordLength) && fontSize == old(fontSize) && findEnabled == old(findEnabled)
    {
      var m := LowerString(mandatory);
      var a := LowerString(additional);
      var matching := Filter(words, m, a, wordLength);
      var sorted := Sort(matching);
      results := sorted;
      countLabel := |sorted|;
      status := SearchComplete(|sorted|);
      assert mandatory == old(mandatory) && additional == old(additional) && words == old(words) && wordLength == old(wordLength);
      assert LowerString(mandatory) == m && LowerString(additional) == a;
      SortedMatches(words, m, a, wordLength);
    }

    /** The loop of `find_words`: keep, in order, the words that pass its three tests. */
    static method Filter(words: seq<string>, m: string, a: string, length: int) returns (matching: seq<string>)
      requires |m| <= 1
      ensures matching == MatchingWords(words, m, a, length)
    {
      matching := [];
      var k := 0;
      while k < |words|
        invariant 0 <= k <= |words|
        invariant matching == MatchingWords(words[..k], m, a, length)
      {
        assert words[..k + 1][..k] == words[..k];
        var word := words[k];
        if |word| == length && (m == "" || m[0] in word) {
          if forall j :: 0 <= j < |word| ==> word[j] in m + a {
            matching := matching + [word];
          }
        }
        k := k + 1;
      }
      assert words[..k] == words;
    }

    /** The "+" button. */
    method IncreaseFont()
      requires Valid()
      modifies this
      ensures Valid()
      ensures fontSize == if old(fontSize) < MaxFontSize then old(fontSize) + 1 else old(fontSize)
      ensures mandatory == old(mandatory) && additional == old(additional) && words == old(words)
      ensures wordLength == old(wordLength) && findEnabled == old(findEnabled)
      ensures results == old(results) && countLabel == old(countLabel) && status == old(status)
    {
      if fontSize < MaxFontSize {
        fontSize := fontSize + 1;
      }
    }

    /** The "-" button. */
    method DecreaseFont()
      requires Valid()
      modifies this
      ensures Valid()
      ensures fontSize == if old(fontSize) > MinFontSize then old(fontSize) - 1 else old(fontSize)
      ensures mandatory == old(mandatory) && additional == old(additional) && words == old(words)
      ensures wordLength == old(wordLength) && findEnabled == old(findEnabled)
      ensures results == old(results) && countLabel == old(countLabel) && status == old(status)
    {
      if fontSize > MinFontSize {
        fontSize := fontSize - 1;
      }
    }
  }
}
