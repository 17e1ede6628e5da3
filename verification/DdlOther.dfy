/** Statements that neither head pattern matches are classified by their first word. */
module DdlOther {
  import opened Text
  import opened Pattern
  import opened DdlParser
  import opened DdlHeader
  import opened Wrappers

  // ---- other statements ------------------------------------------------------------------

  lemma {:induction false} FirstWordTaken(word: string, rest: string)
    requires forall i | 0 <= i < |word| :: !IsSpace(word[i])
    requires rest != "" ==> IsSpace(rest[0])
    ensures FirstWord(word + rest) == word
  {
    if word == "" {
      assert word + rest == rest;
    } else {
      assert (word + rest)[1..] == word[1..] + rest;
      FirstWordTaken(word[1..], rest);
      assert word == [word[0]] + word[1..];
    }
  }

  lemma {:induction false} UpperOfSpelled(word: string, kind: string)
    requires |word| == |kind| && forall i | 0 <= i < |word| :: Upper(word[i]) == kind[i]
    ensures UpperAll(word) == kind
  {
    if word != "" {
      assert kind == [kind[0]] + kind[1..];
      UpperOfSpelled(word[1..], kind[1..]);
    }
  }

  /** A statement that is neither of the two heads gets the kind its first word spells, in any
      letter case. */
  lemma OtherKindReadsWord(word: string, rest: string, kind: string)
    requires kind in ["CREATE", "INSERT", "UPDATE", "DELETE", "USE"]
    requires |word| == |kind| && forall i | 0 <= i < |word| :: Upper(word[i]) == kind[i]
    requires rest != "" ==> IsSpace(rest[0])
    ensures OtherKind(word + rest) == kind
  {
    forall i | 0 <= i < |word| ensures !IsSpace(word[i]) {
      assert Upper(word[i]) == kind[i];
    }
    assert LStrip(word + rest) == word + rest;
    FirstWordTaken(word, rest);
    UpperOfSpelled(word, kind);
    assert kind[|kind| - 1] != ';';
  }

  lemma NoHead(s: string)
    requires s != "" && !IsSpace(s[0]) && !SameLetter(s[0], 'A') && !SameLetter(s[0], 'C')
    ensures Classify(s) == Statement(OtherKind(s), None, None, s)
  {
    HeadFails("ALTER", TABLE_HEAD, s);
    HeadFails("CREATE", KIND_AND_INDEX, s);
    assert ALTER_HEAD == Head("ALTER", TABLE_HEAD);
    assert CREATE_INDEX_HEAD == Head("CREATE", KIND_AND_INDEX);
  }

  lemma OtherFirstLetter(c: char)
    requires Upper(c) in "IUD"
    ensures !IsSpace(c) && !SameLetter(c, 'A') && !SameLetter(c, 'C')
  {
  }

  /** Statements that start with INSERT, UPDATE, DELETE or USE are classified so, without a target. */
  lemma OtherStatementsClassified(word: string, rest: string, kind: string)
    requires kind in ["INSERT", "UPDATE", "DELETE", "USE"]
    requires |word| == |kind| && forall i | 0 <= i < |word| :: Upper(word[i]) == kind[i]
    requires rest != "" ==> IsSpace(rest[0])
    ensures Classify(word + rest) == Statement(kind, None, None, word + rest)
  {
    OtherKindReadsWord(word, rest, kind);
    assert (word + rest)[0] == word[0] && Upper(word[0]) == kind[0];
    OtherFirstLetter(word[0]);
    NoHead(word + rest);
  }

  // ---- other CREATE statements -----------------------------------------------------------

  const HEAD_WORDS := ["INDEX", "UNIQUE", "FULLTEXT", "SPATIAL"]

  /** A word, but neither INDEX nor one of its kinds, in any letter case. */
  predicate IsOtherWord(next: string) {
    && next != "" && (forall j | 0 <= j < |next| :: !IsSpace(next[j]))
    && forall w | w in HEAD_WORDS :: !Spells(next, w)
  }

  /** The text does not read the word and blanks here. */
  predicate LacksWord(s: string, p: nat, w: string) {
    Reads(s, p, w) ==> p + |w| == |s| || !IsSpace(s[p + |w|])
  }

  /** A word of the head patterns: capital letters. */
  predicate IsKeyword(w: string) {
    w != "" && forall j | 0 <= j < |w| :: 'A' <= w[j] <= 'Z'
  }

  lemma HeadWordsAreKeywords(w: string)
    requires w in HEAD_WORDS
    ensures IsKeyword(w)
  {
  }

  lemma BlankIsNoLetter(c: char, w: string, j: nat)
    requires IsKeyword(w) && j < |w| && SameLetter(c, w[j])
    ensures !IsSpace(c)
  {
    assert 'A' <= w[j] <= 'Z';
  }

  lemma BlankLacks(s: string, p: nat, w: string)
    requires p < |s| && IsSpace(s[p]) && IsKeyword(w)
    ensures LacksWord(s, p, w)
  {
    if Reads(s, p, w) {
      assert s[p] == s[p..p + |w|][0];
      BlankIsNoLetter(s[p], w, 0);
    }
  }

  lemma OtherWordLacks(s: string, p: nat, next: string, w: string)
    requires At(s, p, next) && IsKeyword(w) && !Spells(next, w)
    requires forall j | 0 <= j < |next| :: !IsSpace(next[j])
    requires p + |next| < |s| ==> IsSpace(s[p + |next|])
    ensures LacksWord(s, p, w)
  {
    AtChars(s, p, next);
    if Reads(s, p, w) {
      var read := s[p..p + |w|];
      if |next| < |w| {
        assert read[|next|] == s[p + |next|];
        BlankIsNoLetter(s[p + |next|], w, |next|);
      } else if |next| > |w| {
        assert s[p + |w|] == next[|w|];
      }
    }
  }

  lemma LackingFails(w: string, k: Cont, s: string, p: nat)
    requires p <= |s| && LacksWord(s, p, w)
    ensures Match(Lit(w), Then(BLANKS, k), s, p, map[]).NoMatch?
  {
    MatchLit(w, Then(BLANKS, k), s, p, map[]);
    if Reads(s, p, w) {
      NothingFails(Blank, k, s, p + |w|, map[]);
    }
  }

  lemma LackingHeadFails(w: string, next: Regex, s: string, p: nat)
    requires p <= |s| && LacksWord(s, p, w)
    ensures Match(Cat(Lit(w), Cat(BLANKS, next)), Halt, s, p, map[]).NoMatch?
  {
    var rest := Then(Cat(BLANKS, next), Halt);
    MatchLit(w, rest, s, p, map[]);
    if Reads(s, p, w) {
      NothingFails(Blank, Then(next, Halt), s, p + |w|, map[]);
      assert Resume(rest, s, p + |w|, map[]) == Match(BLANKS, Then(next, Halt), s, p + |w|, map[]);
    }
  }

  lemma NoIndexHead(s: string, p: nat)
    requires p <= |s| && forall w | w in HEAD_WORDS :: LacksWord(s, p, w)
    ensures Match(KIND_AND_INDEX, Halt, s, p, map[]).NoMatch?
  {
    var k := Then(INDEX_HEAD, Halt);
    LackingFails("UNIQUE", k, s, p);
    LackingFails("FULLTEXT", k, s, p);
    LackingFails("SPATIAL", k, s, p);
    LackingHeadFails("INDEX", Cat(INDEX_NAME, ON_TARGET), s, p);
    assert Resume(k, s, p, map[]).NoMatch?;
    FirstOfThree(Cat(Lit("UNIQUE"), BLANKS), Cat(Lit("FULLTEXT"), BLANKS), Cat(Lit("SPATIAL"), BLANKS), k, s, p, map[]);
  }

  /** Nothing matches at the places behind `i`, up to `e`. */
  ghost predicate FailsFrom(r: Regex, s: string, i: nat, e: nat) {
    e <= |s| && forall p | i < p <= e :: Match(r, Halt, s, p, map[]).NoMatch?
  }

  /** The head fails when what follows its word and blanks does, after every number of blanks. */
  lemma HeadFailsFrom(w: string, next: Regex, s: string, gap: string)
    requires s != "" && !IsSpace(s[0]) && At(s, |w|, gap) && |w| + |gap| < |s|
    requires IsBlank(gap) && !IsSpace(s[|w| + |gap|]) && FailsFrom(next, s, |w|, |w| + |gap|)
    ensures MatchAtStart(Head(w, next), s).NoMatch?
  {
    var rest := Then(Cat(BLANKS, next), Halt);
    MatchLit(w, rest, s, 0, map[]);
    GapFails(Then(next, Halt), s, |w|, gap);
    assert Resume(rest, s, |w|, map[]) == Match(BLANKS, Then(next, Halt), s, |w|, map[]);
    HeadStarts(w, next, s);
  }

  lemma GapFails(k: Cont, s: string, i: nat, gap: string)
    requires At(s, i, gap) && i + |gap| < |s| && IsBlank(gap) && !IsSpace(s[i + |gap|])
    requires forall p | i < p <= i + |gap| :: Resume(k, s, p, map[]).NoMatch?
    ensures Match(BLANKS, k, s, i, map[]).NoMatch?
  {
    AtChars(s, i, gap);
    RunIs(Blank, |gap|, s, i);
    RunFails(Blank, 1, k, s, i, map[]);
  }

  /** CREATE and a word that is neither INDEX nor one of its kinds. */
  lemma CreateOtherClassified(word: string, gap: string, next: string, rest: string)
    requires |word| == |"CREATE"| && forall i | 0 <= i < |word| :: Upper(word[i]) == "CREATE"[i]
    requires IsGap(gap) && IsOtherWord(next) && (rest != "" ==> IsSpace(rest[0]))
    ensures Classify(word + (gap + (next + rest))) == Statement("CREATE", None, None, word + (gap + (next + rest)))
  {
    var s := word + (gap + (next + rest));
    OtherKindReadsWord(word, gap + (next + rest), "CREATE");
    PlacesBehind(word, gap, next, rest);
    CreateFirstLetter(word[0]);
    NoIndexFrom(s, |word|, gap, next);
    NoHeadMatches(s, gap);
  }

  lemma NoIndexFrom(s: string, i: nat, gap: string, next: string)
    requires
      var e := i + |gap|;
      && At(s, i, gap) && IsBlank(gap) && At(s, e, next) && IsOtherWord(next) && e < |s|
      && (e + |next| < |s| ==> IsSpace(s[e + |next|]))
    ensures FailsFrom(KIND_AND_INDEX, s, i, i + |gap|)
  {
    forall p | i < p <= i + |gap| ensures Match(KIND_AND_INDEX, Halt, s, p, map[]).NoMatch? {
      AtChars(s, i, gap);
      NoIndexAt(s, p, i + |gap|, next);
    }
  }

  lemma NoIndexAt(s: string, p: nat, e: nat, next: string)
    requires p <= e < |s| && (p < e ==> IsSpace(s[p])) && At(s, e, next) && IsOtherWord(next)
    requires e + |next| < |s| ==> IsSpace(s[e + |next|])
    ensures Match(KIND_AND_INDEX, Halt, s, p, map[]).NoMatch?
  {
    forall w | w in HEAD_WORDS ensures LacksWord(s, p, w) {
      HeadWordsAreKeywords(w);
      if p < e {
        BlankLacks(s, p, w);
      } else {
        OtherWordLacks(s, p, next, w);
      }
    }
    NoIndexHead(s, p);
  }

  lemma PlacesBehind(word: string, gap: string, next: string, rest: string)
    requires word != "" && IsGap(gap) && next != "" && !IsSpace(next[0]) && (rest != "" ==> IsSpace(rest[0]))
    ensures
      var s, e := word + (gap + (next + rest)), |word| + |gap|;
      && s[0] == word[0] && At(s, |word|, gap) && At(s, e, next) && e < |s| && !IsSpace(s[e])
      && (forall p | |word| <= p < e :: IsSpace(s[p])) && (e + |next| < |s| ==> IsSpace(s[e + |next|]))
  {
    var s, e := word + (gap + (next + rest)), |word| + |gap|;
    RestParts(s, 0, word, gap + (next + rest));
    RestParts(s, |word|, gap, next + rest);
    RestParts(s, e, next, rest);
    AtChars(s, |word|, gap);
    AtChars(s, e, next);
    if rest != "" {
      assert s[e + |next|] == s[e + |next|..][0];
    }
  }

  lemma CreateFirstLetter(c: char)
    requires Upper(c) == 'C'
    ensures !IsSpace(c) && !SameLetter(c, 'A')
  {
  }

  lemma NoHeadMatches(s: string, gap: string)
    requires s != "" && !IsSpace(s[0]) && !SameLetter(s[0], 'A')
    requires At(s, |"CREATE"|, gap) && |"CREATE"| + |gap| < |s| && IsBlank(gap) && !IsSpace(s[|"CREATE"| + |gap|])
    requires FailsFrom(KIND_AND_INDEX, s, |"CREATE"|, |"CREATE"| + |gap|)
    ensures Classify(s) == Statement(OtherKind(s), None, None, s)
  {
    HeadFails("ALTER", TABLE_HEAD, s);
    HeadFailsFrom("CREATE", KIND_AND_INDEX, s, gap);
    assert ALTER_HEAD == Head("ALTER", TABLE_HEAD);
    assert CREATE_INDEX_HEAD == Head("CREATE", KIND_AND_INDEX);
  }

  // ---- all others ------------------------------------------------------------------------

  /** The word is none of the kinds, in any letter case. */
  predicate IsUnknown(word: string) {
    && word != "" && ';' !in word && (forall j | 0 <= j < |word| :: !IsSpace(word[j]))
    && forall kind | kind in ["CREATE", "INSERT", "UPDATE", "DELETE", "USE"] ::
         |word| != |kind| || exists i | 0 <= i < |word| :: Upper(word[i]) != kind[i]
  }

  lemma NotSpelled(word: string, kind: string)
    requires |word| != |kind| || exists i | 0 <= i < |word| :: Upper(word[i]) != kind[i]
    ensures UpperAll(word) != kind
  {
    UpperAt(word);
  }

  lemma NotAKind(word: string)
    requires IsUnknown(word)
    ensures UpperAll(word) !in ["CREATE", "INSERT", "UPDATE", "DELETE", "USE"]
  {
    forall kind | kind in ["CREATE", "INSERT", "UPDATE", "DELETE", "USE"] ensures UpperAll(word) != kind {
      NotSpelled(word, kind);
    }
  }

  lemma NoSemicolonStripped(word: string)
    requires word != "" && ';' !in word
    ensures RStripChar(UpperAll(word), ';') == UpperAll(word)
  {
    UpperAt(word);
    assert word[|word| - 1] in word;
  }

  lemma UnknownKind(word: string, rest: string)
    requires IsUnknown(word) && (rest != "" ==> IsSpace(rest[0]))
    ensures OtherKind(word + rest) == "OTHER"
  {
    assert LStrip(word + rest) == word + rest by {
      assert (word + rest)[0] == word[0];
    }
    FirstWordTaken(word, rest);
    NoSemicolonStripped(word);
    NotAKind(word);
  }

  lemma UnknownLacks(word: string, rest: string, w: string)
    requires word != "" && (forall j | 0 <= j < |word| :: !IsSpace(word[j])) && (rest != "" ==> IsSpace(rest[0]))
    requires IsKeyword(w) && !Spells(word, w)
    ensures LacksWord(word + rest, 0, w)
  {
    var s := word + rest;
    assert s[0..0 + |word|] == word;
    OtherWordLacks(s, 0, word, w);
  }

  lemma NoHeadWords(s: string)
    requires s != "" && !IsSpace(s[0]) && LacksWord(s, 0, "ALTER") && LacksWord(s, 0, "CREATE")
    ensures Classify(s) == Statement(OtherKind(s), None, None, s)
  {
    LackingHeadFails("ALTER", TABLE_HEAD, s, 0);
    HeadStarts("ALTER", TABLE_HEAD, s);
    LackingHeadFails("CREATE", KIND_AND_INDEX, s, 0);
    HeadStarts("CREATE", KIND_AND_INDEX, s);
    assert ALTER_HEAD == Head("ALTER", TABLE_HEAD);
    assert CREATE_INDEX_HEAD == Head("CREATE", KIND_AND_INDEX);
  }

  /** A statement whose first word is neither ALTER nor one of the five kinds is another one. */
  lemma OtherwiseOther(word: string, rest: string)
    requires IsUnknown(word) && !Spells(word, "ALTER") && !Spells(word, "CREATE")
    requires rest != "" ==> IsSpace(rest[0])
    ensures Classify(word + rest) == Statement("OTHER", None, None, word + rest)
  {
    UnknownKind(word, rest);
    NoHeadWord(word, rest);
  }

  lemma NoHeadWord(word: string, rest: string)
    requires word != "" && (forall j | 0 <= j < |word| :: !IsSpace(word[j])) && (rest != "" ==> IsSpace(rest[0]))
    requires !Spells(word, "ALTER") && !Spells(word, "CREATE")
    ensures Classify(word + rest) == Statement(OtherKind(word + rest), None, None, word + rest)
  {
    UnknownLacks(word, rest, "ALTER");
    UnknownLacks(word, rest, "CREATE");
    assert (word + rest)[0] == word[0];
    NoHeadWords(word + rest);
  }

  lemma NoTableFrom(s: string, i: nat, gap: string, next: string)
    requires
      var e := i + |gap|;
      && At(s, i, gap) && IsBlank(gap) && At(s, e, next) && next != "" && e < |s|
      && (e + |next| < |s| ==> IsSpace(s[e + |next|]))
    requires (forall j | 0 <= j < |next| :: !IsSpace(next[j])) && !Spells(next, "TABLE")
    ensures FailsFrom(TABLE_HEAD, s, i, i + |gap|)
  {
    forall p | i < p <= i + |gap| ensures Match(TABLE_HEAD, Halt, s, p, map[]).NoMatch? {
      AtChars(s, i, gap);
      if p < i + |gap| {
        BlankLacks(s, p, "TABLE");
      } else {
        OtherWordLacks(s, p, next, "TABLE");
      }
      LackingHeadFails("TABLE", TARGET, s, p);
    }
  }

  lemma NoAlterTable(s: string, gap: string)
    requires s != "" && !IsSpace(s[0]) && !SameLetter(s[0], 'C')
    requires At(s, |"ALTER"|, gap) && |"ALTER"| + |gap| < |s| && IsBlank(gap) && !IsSpace(s[|"ALTER"| + |gap|])
    requires FailsFrom(TABLE_HEAD, s, |"ALTER"|, |"ALTER"| + |gap|)
    ensures Classify(s) == Statement(OtherKind(s), None, None, s)
  {
    HeadFailsFrom("ALTER", TABLE_HEAD, s, gap);
    HeadFails("CREATE", KIND_AND_INDEX, s);
    assert ALTER_HEAD == Head("ALTER", TABLE_HEAD);
    assert CREATE_INDEX_HEAD == Head("CREATE", KIND_AND_INDEX);
  }

  lemma AlterIsUnknown(word: string)
    requires |word| == 5 && Upper(word[0]) == 'A' && forall i | 0 <= i < |word| :: Upper(word[i]) == "ALTER"[i]
    ensures IsUnknown(word) && !IsSpace(word[0]) && !SameLetter(word[0], 'C')
  {
    forall j | 0 <= j < |word| ensures !IsSpace(word[j]) && word[j] != ';' {
      assert Upper(word[j]) == "ALTER"[j];
    }
  }

  /** ALTER and a word other than TABLE is another statement too. */
  lemma AlterOtherIsOther(word: string, gap: string, next: string, rest: string)
    requires |word| == |"ALTER"| && forall i | 0 <= i < |word| :: Upper(word[i]) == "ALTER"[i]
    requires IsGap(gap) && next != "" && (forall j | 0 <= j < |next| :: !IsSpace(next[j])) && !Spells(next, "TABLE")
    requires rest != "" ==> IsSpace(rest[0])
    ensures Classify(word + (gap + (next + rest))) == Statement("OTHER", None, None, word + (gap + (next + rest)))
  {
    var s := word + (gap + (next + rest));
    AlterIsUnknown(word);
    UnknownKind(word, gap + (next + rest));
    PlacesBehind(word, gap, next, rest);
    NoTableFrom(s, |word|, gap, next);
    NoAlterTable(s, gap);
  }
}
