/** The part of Python's `re` that the DDL patterns use: literals under IGNORECASE, greedy
    repetition of a character class, ordered alternatives and named groups, matched by
    backtracking from a fixed position.  What is still to be matched is a continuation. */
module Pattern {
  import opened Text

  /** The classes `\s`, `\w` (ASCII part), and the three negated ones of the DDL patterns. */
  datatype Class = Blank | Word | NotTickBlank | NotTickBlankParen | NotTickBlankDotParens

  predicate InClass(cls: Class, c: char) {
    match cls
    case Blank => IsSpace(c)
    case Word => '0' <= c <= '9' || 'A' <= c <= 'Z' || 'a' <= c <= 'z' || c == '_'
    case NotTickBlank => c != '`' && !IsSpace(c)
    case NotTickBlankParen => c != '`' && !IsSpace(c) && c != '('
    case NotTickBlankDotParens => c != '`' && !IsSpace(c) && c != '.' && c != '(' && c != ')'
  }

  datatype Group = Schema | Table

  datatype Regex =
    | Empty
    | Chr(c: char)
    | Many(cls: Class, least: nat)
    | Cat(first: Regex, second: Regex)
    | Or(left: Regex, right: Regex)
    | Grp(name: Group, body: Regex)

  /** What remains to be matched once the expression at hand has matched. */
  datatype Cont =
    | Halt
    | Then(r: Regex, next: Cont)
    | Close(name: Group, start: nat, next: Cont)

  type Groups = map<Group, string>

  datatype Outcome = NoMatch | Matched(groups: Groups)

  function Maybe(r: Regex): Regex {
    Or(r, Empty)
  }

  function Lit(w: string): Regex {
    if w == "" then Empty else Cat(Chr(w[0]), Lit(w[1..]))
  }

  /** Whether a character matches a literal under IGNORECASE.  Besides the ASCII case pairs,
      Python also lets dotted and dotless i match `i`, long s match `s` and the Kelvin sign
      match `k`. */
  predicate SameLetter(c: char, literal: char) {
    || Lower(c) == Lower(literal)
    || (Lower(literal) == 'i' && (c == '\U{130}' || c == '\U{131}'))
    || (Lower(literal) == 's' && c == '\U{17f}')
    || (Lower(literal) == 'k' && c == '\U{212a}')
  }

  // ---- the matcher -----------------------------------------------------------------------

  function RegexSize(r: Regex): nat {
    match r
    case Empty | Chr(_) | Many(_, _) => 1
    case Cat(a, b) => RegexSize(a) + RegexSize(b) + 2
    case Or(a, b) => RegexSize(a) + RegexSize(b) + 1
    case Grp(_, b) => RegexSize(b) + 3
  }

  function ContSize(k: Cont): nat {
    match k
    case Halt => 0
    case Then(r, next) => RegexSize(r) + ContSize(next) + 1
    case Close(_, _, next) => ContSize(next) + 1
  }

  /** How many characters from `i` on are in the class. */
  function Run(cls: Class, s: string, i: nat): (n: nat)
    requires i <= |s|
    ensures i + n <= |s|
    ensures forall j | i <= j < i + n :: InClass(cls, s[j])
    ensures i + n < |s| ==> !InClass(cls, s[i + n])
    decreases |s| - i
  {
    if i < |s| && InClass(cls, s[i]) then 1 + Run(cls, s, i + 1) else 0
  }

  function Match(r: Regex, k: Cont, s: string, i: nat, g: Groups): Outcome
    requires i <= |s|
    decreases RegexSize(r) + ContSize(k), 1, 0, s
  {
    match r
    case Empty => Resume(k, s, i, g)
    case Chr(c) => if i < |s| && SameLetter(s[i], c) then Resume(k, s, i + 1, g) else NoMatch
    case Many(cls, least) => Greedy(least, k, s, i, Run(cls, s, i), g)
    case Cat(a, b) => Match(a, Then(b, k), s, i, g)
    case Or(a, b) =>
      var m := Match(a, k, s, i, g);
      if m.Matched? then m else Match(b, k, s, i, g)
    case Grp(name, b) => Match(b, Close(name, i, k), s, i, g)
  }

  function Resume(k: Cont, s: string, i: nat, g: Groups): Outcome
    requires i <= |s|
    decreases ContSize(k), 2, 0, s
  {
    match k
    case Halt => Matched(g)
    case Then(r, next) => Match(r, next, s, i, g)
    case Close(name, start, next) =>
      if start <= i then Resume(next, s, i, g[name := s[start..i]]) else NoMatch
  }

  /** Takes `n` characters, then one fewer, and so on down to the least number allowed. */
  function Greedy(least: nat, k: Cont, s: string, i: nat, n: nat, g: Groups): Outcome
    requires i + n <= |s|
    decreases ContSize(k) + 1, 0, n, s
  {
    if n < least then NoMatch
    else
      var m := Resume(k, s, i + n, g);
      if m.Matched? || n == 0 then m else Greedy(least, k, s, i, n - 1, g)
  }

  /** `re.match`: the first match in backtracking order that starts at the first character. */
  function MatchAtStart(r: Regex, s: string): Outcome {
    Match(r, Halt, s, 0, map[])
  }

  // ---- laws of the matcher ---------------------------------------------------------------

  /** `s` reads `w` from position `i` on, letter case aside. */
  predicate Reads(s: string, i: nat, w: string) {
    i + |w| <= |s| && Spells(s[i..i + |w|], w)
  }

  /** `spelled` is the word `w`, letter case aside. */
  predicate Spells(spelled: string, w: string) {
    |spelled| == |w| && forall j | 0 <= j < |w| :: SameLetter(spelled[j], w[j])
  }

  lemma ReadsStep(s: string, i: nat, w: string)
    requires i <= |s| && w != ""
    ensures Reads(s, i, w) <==> i < |s| && SameLetter(s[i], w[0]) && Reads(s, i + 1, w[1..])
  {
    if i + |w| <= |s| {
      var here, there := s[i..i + |w|], s[i + 1..i + 1 + |w[1..]|];
      assert here == [s[i]] + there;
      assert w == [w[0]] + w[1..];
    }
  }

  lemma {:induction false} MatchLit(w: string, k: Cont, s: string, i: nat, g: Groups)
    requires i <= |s|
    ensures Match(Lit(w), k, s, i, g) == if Reads(s, i, w) then Resume(k, s, i + |w|, g) else NoMatch
    decreases |w|
  {
    if w != "" {
      ReadsStep(s, i, w);
      var rest := Then(Lit(w[1..]), k);
      assert Match(Lit(w), k, s, i, g) == Match(Chr(w[0]), rest, s, i, g);
      if i < |s| && SameLetter(s[i], w[0]) {
        assert Match(Chr(w[0]), rest, s, i, g) == Resume(rest, s, i + 1, g);
        MatchLit(w[1..], k, s, i + 1, g);
      }
    }
  }

  /** Nothing is given back when the rest matches after the longest run. */
  lemma RunTakenWhole(cls: Class, least: nat, n: nat, k: Cont, s: string, i: nat, g: Groups)
    requires i + n <= |s| && n >= least
    requires forall j | i <= j < i + n :: InClass(cls, s[j])
    requires i + n < |s| ==> !InClass(cls, s[i + n])
    requires Resume(k, s, i + n, g).Matched?
    ensures Match(Many(cls, least), k, s, i, g) == Resume(k, s, i + n, g)
  {
    RunIs(cls, n, s, i);
  }

  lemma {:induction false} RunIs(cls: Class, n: nat, s: string, i: nat)
    requires i + n <= |s|
    requires forall j | i <= j < i + n :: InClass(cls, s[j])
    requires i + n < |s| ==> !InClass(cls, s[i + n])
    ensures Run(cls, s, i) == n
  {
    if n > 0 {
      RunIs(cls, n - 1, s, i + 1);
    }
  }

  /** The expression has no group, so it leaves the groups as they are. */
  predicate HasNoGroup(r: Regex) {
    match r
    case Empty | Chr(_) | Many(_, _) => true
    case Cat(a, b) => HasNoGroup(a) && HasNoGroup(b)
    case Or(a, b) => HasNoGroup(a) && HasNoGroup(b)
    case Grp(_, _) => false
  }

  lemma {:induction false} LitHasNoGroup(w: string)
    ensures HasNoGroup(Lit(w))
  {
    if w != "" {
      LitHasNoGroup(w[1..]);
    }
  }

  lemma {:induction false} GreedyEnds(least: nat, k: Cont, s: string, i: nat, n: nat, g: Groups) returns (m: nat)
    requires i + n <= |s| && Greedy(least, k, s, i, n, g).Matched?
    ensures least <= m <= n && Greedy(least, k, s, i, n, g) == Resume(k, s, i + m, g)
  {
    if Resume(k, s, i + n, g).Matched? || n == 0 {
      m := n;
    } else {
      m := GreedyEnds(least, k, s, i, n - 1, g);
    }
  }

  /** Whatever an expression does, a match of it and the rest is one of the rest further on. */
  lemma {:induction false} MatchEnds(r: Regex, k: Cont, s: string, i: nat, g: Groups) returns (j: nat, g': Groups)
    requires i <= |s| && Match(r, k, s, i, g).Matched?
    ensures i <= j <= |s| && Match(r, k, s, i, g) == Resume(k, s, j, g')
    ensures HasNoGroup(r) ==> g' == g
    decreases r
  {
    match r
    case Empty =>
      j, g' := i, g;
    case Chr(c) =>
      j, g' := i + 1, g;
    case Many(cls, least) =>
      var m := GreedyEnds(least, k, s, i, Run(cls, s, i), g);
      j, g' := i + m, g;
    case Cat(a, b) =>
      var p, h := MatchEnds(a, Then(b, k), s, i, g);
      j, g' := MatchEnds(b, k, s, p, h);
    case Or(a, b) =>
      if Match(a, k, s, i, g).Matched? {
        j, g' := MatchEnds(a, k, s, i, g);
      } else {
        j, g' := MatchEnds(b, k, s, i, g);
      }
    case Grp(name, b) =>
      var p, h := MatchEnds(b, Close(name, i, k), s, i, g);
      j, g' := p, h[name := s[i..p]];
  }

  /** A repetition fails when the rest fails after every length it may take. */
  lemma {:induction false} GreedyFails(least: nat, k: Cont, s: string, i: nat, n: nat, g: Groups)
    requires i + n <= |s|
    requires forall p | i + least <= p <= i + n :: Resume(k, s, p, g).NoMatch?
    ensures Greedy(least, k, s, i, n, g).NoMatch?
  {
    if n >= least && n > 0 {
      GreedyFails(least, k, s, i, n - 1, g);
    }
  }

  lemma RunFails(cls: Class, least: nat, k: Cont, s: string, i: nat, g: Groups)
    requires i <= |s|
    requires forall p | i + least <= p <= i + Run(cls, s, i) :: Resume(k, s, p, g).NoMatch?
    ensures Match(Many(cls, least), k, s, i, g).NoMatch?
  {
    GreedyFails(least, k, s, i, Run(cls, s, i), g);
  }
}
