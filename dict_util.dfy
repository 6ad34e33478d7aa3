/** The utility `lexitron/dict_util.py`, which splits a dictionary into its
    common (lower-case) and proper (upper-case) words.

    The dictionary arrives as its list of lines; reading and writing the
    files is not modelled. `str.isalpha`, `str.islower` and `str.isupper`
    on one character are predicates handed in by the caller. The words the
    utility reports as neither lower nor upper case are returned as a third
    list instead of being printed. */
module DictUtil {
  import opened Strings
  import opened Lists

  /** `word.isalpha()`: at least one character, and every one a letter. */
  predicate IsAlphaWord(w: string, isAlpha: char -> bool) {
    |w| > 0 && forall i :: 0 <= i < |w| ==> isAlpha(w[i])
  }

  /** `word.isalpha()` as a condition on words. */
  function AlphaWords(isAlpha: char -> bool): string -> bool {
    w => IsAlphaWord(w, isAlpha)
  }

  /** Every line stripped, `word.strip()`. */
  function Stripped(lines: seq<string>): seq<string> {
    seq(|lines|, i requires 0 <= i < |lines| => Strip(lines[i]))
  }

  /** The words the utility goes on to classify: of the stripped lines, those
      that consist of letters only, in dictionary order. */
  function Candidates(lines: seq<string>, isAlpha: char -> bool): (r: seq<string>)
    ensures r == Filter(Stripped(lines), AlphaWords(isAlpha))
    ensures |r| <= |lines|
    ensures forall j :: 0 <= j < |r| ==> IsAlphaWord(r[j], isAlpha)
    decreases |lines|
  {
    if lines == [] then []
    else
      var init := lines[..|lines| - 1];
      var word := Strip(lines[|lines| - 1]);
      var rest := Candidates(init, isAlpha);
      StrippedSnoc(lines);
      FilterSnoc(Stripped(init), word, AlphaWords(isAlpha));
      if IsAlphaWord(word, isAlpha) then rest + [word] else rest
  }

  lemma StrippedSnoc(lines: seq<string>)
    requires lines != []
    ensures Stripped(lines) == Stripped(lines[..|lines| - 1]) + [Strip(lines[|lines| - 1])]
  {
  }

  /** Each candidate is a whole stripped line, so it neither starts nor ends
      with whitespace. */
  lemma CandidatesTrimmed(lines: seq<string>, isAlpha: char -> bool, w: string)
    requires w in Candidates(lines, isAlpha)
    ensures exists k :: 0 <= k < |lines| && w == Strip(lines[k])
    ensures w != [] && !IsSpace(w[0]) && !IsSpace(w[|w| - 1])
  {
    var ws := Stripped(lines);
    assert w in ws && IsAlphaWord(w, isAlpha);
    var k :| 0 <= k < |ws| && ws[k] == w;
    assert w == Strip(lines[k]);
  }

  /** Words starting with a lower-case letter. */
  function LowerInitial(isLower: char -> bool): string -> bool {
    w => |w| > 0 && isLower(w[0])
  }

  /** Words starting with an upper-case letter that is not also lower case
      (the `elif` branch). */
  function UpperInitial(isLower: char -> bool, isUpper: char -> bool): string -> bool {
    w => |w| > 0 && !isLower(w[0]) && isUpper(w[0])
  }

  /** Words whose first letter is neither lower nor upper case. */
  function NeitherInitial(isLower: char -> bool, isUpper: char -> bool): string -> bool {
    w => |w| > 0 && !isLower(w[0]) && !isUpper(w[0])
  }

  /** The three lists after the loop has seen `lines`: common words,
      proper nouns, and the words reported as neither. */
  datatype Split = Split(lowercase: seq<string>, uppercase: seq<string>, neither: seq<string>)

  /** The lists the loop builds, line by line. */
  function Classified(lines: seq<string>, isAlpha: char -> bool, isLower: char -> bool, isUpper: char -> bool): Split
    decreases |lines|
  {
    if lines == [] then Split([], [], [])
    else
      var s := Classified(lines[..|lines| - 1], isAlpha, isLower, isUpper);
      var word := Strip(lines[|lines| - 1]);
      if !IsAlphaWord(word, isAlpha) then s
      else if isLower(word[0]) then s.(lowercase := s.lowercase + [word])
      else if isUpper(word[0]) then s.(uppercase := s.uppercase + [word])
      else s.(neither := s.neither + [word])
  }

  /** Each list is the candidates of its category, in dictionary order. */
  lemma {:induction false} ClassifiedFilters(lines: seq<string>, isAlpha: char -> bool, isLower: char -> bool, isUpper: char -> bool)
    ensures var s := Classified(lines, isAlpha, isLower, isUpper);
      && s.lowercase == Filter(Candidates(lines, isAlpha), LowerInitial(isLower))
      && s.uppercase == Filter(Candidates(lines, isAlpha), UpperInitial(isLower, isUpper))
      && s.neither == Filter(Candidates(lines, isAlpha), NeitherInitial(isLower, isUpper))
    decreases |lines|
  {
    if lines != [] {
      var init := lines[..|lines| - 1];
      var line := lines[|lines| - 1];
      assert lines == init + [line];
      ClassifiedFilters(init, isAlpha, isLower, isUpper);
      ClassifyStep(init, line, isAlpha, LowerInitial(isLower));
      ClassifyStep(init, line, isAlpha, UpperInitial(isLower, isUpper));
      ClassifyStep(init, line, isAlpha, NeitherInitial(isLower, isUpper));
    }
  }

  /** The classification loop: each line is stripped, skipped unless it is
      all letters, and appended to the list its first letter selects. */
  method SplitWords(lines: seq<string>, isAlpha: char -> bool, isLower: char -> bool, isUpper: char -> bool)
    returns (lowercase: seq<string>, uppercase: seq<string>, neither: seq<string>)
    ensures Split(lowercase, uppercase, neither) == Classified(lines, isAlpha, isLower, isUpper)
  {
    lowercase, uppercase, neither := [], [], [];
    for i := 0 to |lines|
      invariant Split(lowercase, uppercase, neither) == Classified(lines[..i], isAlpha, isLower, isUpper)
    {
      var word := Strip(lines[i]);
      assert lines[..i + 1][..i] == lines[..i];
      if !IsAlphaWord(word, isAlpha) {
        continue;
      }
      if isLower(word[0]) {
        lowercase := lowercase + [word];
      } else if isUpper(word[0]) {
        uppercase := uppercase + [word];
      } else {
        neither := neither + [word];
      }
    }
    assert lines[..|lines|] == lines;
  }

  /** One more line extends a category by its stripped form when that is
      all letters and falls in the category, and leaves it alone otherwise. */
  lemma ClassifyStep(lines: seq<string>, line: string, isAlpha: char -> bool, p: string -> bool)
    ensures Filter(Candidates(lines + [line], isAlpha), p)
         == Filter(Candidates(lines, isAlpha), p)
            + if IsAlphaWord(Strip(line), isAlpha) && p(Strip(line)) then [Strip(line)] else []
  {
    assert (lines + [line])[..|lines|] == lines;
    FilterSnoc(Candidates(lines, isAlpha), Strip(line), p);
  }

  /** Every candidate lands in exactly one of the three lists: nothing is
      lost and nothing is written twice. */
  lemma {:induction false} ClassificationPartition(words: seq<string>, isLower: char -> bool, isUpper: char -> bool)
    requires forall i :: 0 <= i < |words| ==> words[i] != ""
    ensures multiset(Filter(words, LowerInitial(isLower)))
          + multiset(Filter(words, UpperInitial(isLower, isUpper)))
          + multiset(Filter(words, NeitherInitial(isLower, isUpper)))
         == multiset(words)
    decreases |words|
  {
    if words != [] {
      var init := words[..|words| - 1];
      var last := words[|words| - 1];
      assert words == init + [last];
      ClassificationPartition(init, isLower, isUpper);
      FilterSnoc(init, last, LowerInitial(isLower));
      FilterSnoc(init, last, UpperInitial(isLower, isUpper));
      FilterSnoc(init, last, NeitherInitial(isLower, isUpper));
    }
  }

  /** What the two output files hold: stripped words of letters only, taken
      from the dictionary's lines, the common ones starting lower case and
      the proper ones upper case; no word is in both, and together with the
      reported words they are exactly the candidates. */
  lemma SplitWordsSound(lines: seq<string>, isAlpha: char -> bool, isLower: char -> bool, isUpper: char -> bool)
    ensures var words := Candidates(lines, isAlpha);
      var lower := Filter(words, LowerInitial(isLower));
      var upper := Filter(words, UpperInitial(isLower, isUpper));
      var other := Filter(words, NeitherInitial(isLower, isUpper));
      && (forall w :: w in lower ==> w in words && isLower(w[0]))
      && (forall w :: w in upper ==> w in words && isUpper(w[0]))
      && (forall w :: w in lower ==> w !in upper)
      && multiset(lower) + multiset(upper) + multiset(other) == multiset(words)
  {
    var words := Candidates(lines, isAlpha);
    forall i | 0 <= i < |words| ensures words[i] != "" {
      assert words[i] in words;
    }
    ClassificationPartition(words, isLower, isUpper);
  }
}
