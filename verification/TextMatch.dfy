/**
 Whitespace-normalized text matching. The snapshot walk compares normalized strings; a live query can
 only evaluate a full-match pattern. The two agree on every string.

 A pattern is its syntax tree, and `Matches` the language it denotes; `escapedPattern` becomes a
 literal. Case folding is any character map that keeps white space apart from everything else.
 */
module TextMatch {
  import opened Sequences

  /** JavaScript's `\s`, as ranges of code points. */
  const SPACES: seq<(int, int)> := [
    (0x20, 0x20), (0x09, 0x0D), (0xA0, 0xA0), (0x1680, 0x1680), (0x2000, 0x200A),
    (0x2028, 0x2029), (0x202F, 0x202F), (0x205F, 0x205F), (0x3000, 0x3000), (0xFEFF, 0xFEFF)
  ]

  predicate IsSpace(c: char) {
    InRanges(c as int, SPACES)
  }

  predicate InRanges(v: int, ranges: seq<(int, int)>) {
    ranges != [] && (ranges[0].0 <= v <= ranges[0].1 || InRanges(v, ranges[1..]))
  }

  predicate AllSpace(s: string) {
    forall i :: 0 <= i < |s| ==> IsSpace(s[i])
  }

  /** Every stretch of white space as one space, and none at the ends. */
  function Normalize(s: string): string {
    if s == [] then []
    else if IsSpace(s[0]) then Normalize(s[1..])
    else [s[0]] + Tail(s[1..], false)
  }

  /** What `s` adds to a text already begun; `pending`: white space was seen just before it. */
  function Tail(s: string, pending: bool): string {
    if s == [] then []
    else if IsSpace(s[0]) then Tail(s[1..], true)
    else (if pending then [' ', s[0]] else [s[0]]) + Tail(s[1..], false)
  }

  /** The source's loop: one pass with an output buffer and a pending space. */
  method NormalizeText(text: string) returns (out: string)
    ensures out == Normalize(text)
  {
    out := [];
    var pendingSpace := false;
    for i := 0 to |text|
      invariant out == [] ==> Normalize(text[i..]) == Normalize(text)
      invariant out != [] ==> out + Tail(text[i..], pendingSpace) == Normalize(text)
    {
      var scalar := text[i];
      assert text[i..][0] == scalar && text[i..][1..] == text[i + 1..];
      if IsSpace(scalar) {
        pendingSpace := true;
      } else {
        if pendingSpace && out != [] {
          out := out + [' '];
        }
        pendingSpace := false;
        out := out + [scalar];
      }
    }
  }

  predicate Equals(text: string, query: string) {
    Normalize(text) == Normalize(query)
  }

  // ---------------------------------------------------------------- patterns

  datatype Regex =
    | Empty
    | Literal(text: string)
    | Any
    | Space
    | Cat(first: Regex, second: Regex)
    | Star(body: Regex)

  function Plus(r: Regex): Regex {
    Cat(r, Star(r))
  }

  function Same(c: char): char {
    c
  }

  ghost predicate KeepsSpace(fold: char -> char) {
    forall c :: KeepsSpaceAt(fold, c)
  }

  predicate KeepsSpaceAt(fold: char -> char, c: char) {
    IsSpace(fold(c)) == IsSpace(c)
  }

  /** The strings a pattern matches in full, letters compared under `fold`. */
  ghost predicate Matches(r: Regex, s: string, fold: char -> char)
    decreases r, |s|, 1
  {
    match r
    case Empty => s == []
    case Literal(text) => Alike(s, text, fold)
    case Any => |s| == 1
    case Space => |s| == 1 && exists c :: IsSpace(c) && fold(c) == fold(s[0])
    case Cat(_, _) => exists k :: CutsAt(r, s, k, fold)
    case Star(_) => s == [] || exists k :: TurnsAt(r, s, k, fold)
  }

  /** The first part of `r` matches up to `k`, the second from there on. */
  ghost predicate CutsAt(r: Regex, s: string, k: int, fold: char -> char)
    requires r.Cat?
    decreases r, |s|, 0
  {
    0 <= k <= |s| && Matches(r.first, s[..k], fold) && Matches(r.second, s[k..], fold)
  }

  /** One turn of the repetition matches up to `k`, further turns the rest. */
  ghost predicate TurnsAt(r: Regex, s: string, k: int, fold: char -> char)
    requires r.Star?
    decreases r, |s|, 0
  {
    0 < k <= |s| && Matches(r.body, s[..k], fold) && Matches(r, s[k..], fold)
  }

  predicate Alike(a: string, b: string, fold: char -> char) {
    |a| == |b| && forall i :: 0 <= i < |a| ==> fold(a[i]) == fold(b[i])
  }

  /** `split(separator: " ")`, which leaves out empty pieces; `word` is the piece being read. */
  function Split(s: string, word: string): seq<string> {
    if s == [] then (if word == [] then [] else [word])
    else if s[0] == ' ' then (if word == [] then [] else [word]) + Split(s[1..], [])
    else Split(s[1..], word + [s[0]])
  }

  function JoinWords(words: seq<string>): Regex {
    if words == [] then Empty
    else if |words| == 1 then Literal(words[0])
    else Cat(Literal(words[0]), Cat(Plus(Space), JoinWords(words[1..])))
  }

  function WordsPattern(query: string): Regex {
    var normalized := Normalize(query);
    if normalized == [] then Empty else JoinWords(Split(normalized, []))
  }

  function ExactPattern(query: string): Regex {
    Cat(Star(Space), Cat(WordsPattern(query), Star(Space)))
  }

  function ContainsPattern(query: string): Regex {
    Cat(Star(Any), Cat(WordsPattern(query), Star(Any)))
  }

  /** `contains`, with its shortcut for an empty text. */
  ghost predicate Contains(text: string, query: string, fold: char -> char) {
    if text == [] then Normalize(query) == [] else Matches(ContainsPattern(query), text, fold)
  }

  /** Some stretch of `s` reads like `part`. */
  ghost predicate HasPart(s: string, part: string, fold: char -> char) {
    exists i :: PartAt(s, part, i, fold)
  }

  predicate PartAt(s: string, part: string, i: int, fold: char -> char) {
    0 <= i && i + |part| <= |s| && Alike(s[i..i + |part|], part, fold)
  }

  // ---------------------------------------------------------------- the shape of normalized text

  /** What may follow the first character of a normalized text. */
  predicate TailForm(u: string) {
    u == []
    || (!IsSpace(u[0]) && TailForm(u[1..]))
    || (u[0] == ' ' && |u| >= 2 && !IsSpace(u[1]) && TailForm(u[2..]))
  }

  lemma {:induction false} TailHasForm(s: string, pending: bool)
    ensures TailForm(Tail(s, pending))
    ensures AllSpace(s) <==> Tail(s, pending) == []
    ensures Tail(s, pending) != [] ==> IsSpace(Tail(s, pending)[0]) == (pending || IsSpace(s[0]))
  {
    if s == [] {
    } else if IsSpace(s[0]) {
      TailHasForm(s[1..], true);
    } else {
      TailHasForm(s[1..], false);
      var u := Tail(s, pending);
      assert u[1..] == if pending then [s[0]] + Tail(s[1..], false) else Tail(s[1..], false);
      if pending {
        assert u[2..] == Tail(s[1..], false);
      }
    }
  }

  lemma {:induction false} NormalizeHasForm(s: string)
    ensures AllSpace(s) <==> Normalize(s) == []
    ensures var n := Normalize(s); n != [] ==>
      !IsSpace(n[0]) && !IsSpace(n[|n| - 1]) && TailForm(n[1..])
  {
    if s == [] {
    } else if IsSpace(s[0]) {
      NormalizeHasForm(s[1..]);
    } else {
      TailHasForm(s[1..], false);
      var n := Normalize(s);
      assert n[1..] == Tail(s[1..], false);
      if |n| > 1 {
        TailEndsInk(n[1..]);
      }
    }
  }

  lemma {:induction false} TailEndsInk(u: string)
    requires TailForm(u) && u != []
    ensures !IsSpace(u[|u| - 1])
  {
    if |u| > 1 {
      if IsSpace(u[0]) {
        if |u| > 2 {
          TailEndsInk(u[2..]);
        }
      } else {
        TailEndsInk(u[1..]);
      }
    }
  }

  lemma {:induction false} TailOfForm(u: string)
    requires TailForm(u)
    ensures Tail(u, false) == u
  {
    if u == [] {
    } else if IsSpace(u[0]) {
      TailOfForm(u[2..]);
      assert u[1..][1..] == u[2..];
      assert u == [' ', u[1]] + u[2..];
    } else {
      TailOfForm(u[1..]);
    }
  }

  /** Normalizing twice is normalizing once. */
  lemma NormalizeIdempotent(s: string)
    ensures Normalize(Normalize(s)) == Normalize(s)
  {
    NormalizeHasForm(s);
    if Normalize(s) != [] {
      TailOfForm(Normalize(s)[1..]);
    }
  }

  // ---------------------------------------------------------------- normalizing pieces of a text

  predicate EndsInSpace(s: string, pending: bool) {
    if s == [] then pending else IsSpace(s[|s| - 1])
  }

  lemma {:induction false} TailAppend(a: string, b: string, pending: bool)
    ensures Tail(a + b, pending) == Tail(a, pending) + Tail(b, EndsInSpace(a, pending))
  {
    if a == [] {
      assert a + b == b;
    } else {
      assert (a + b)[1..] == a[1..] + b;
      if IsSpace(a[0]) {
        TailAppend(a[1..], b, true);
      } else {
        TailAppend(a[1..], b, false);
      }
    }
  }

  lemma {:induction false} NormalizeAppend(a: string, b: string)
    ensures Normalize(a + b) ==
      if Normalize(a) == [] then Normalize(b) else Normalize(a) + Tail(b, EndsInSpace(a, false))
  {
    if a == [] {
      assert a + b == b;
    } else {
      assert (a + b)[1..] == a[1..] + b;
      if IsSpace(a[0]) {
        NormalizeAppend(a[1..], b);
        assert a[1..] != [] ==> EndsInSpace(a[1..], false) == EndsInSpace(a, false);
      } else {
        TailAppend(a[1..], b, false);
        assert EndsInSpace(a[1..], false) == EndsInSpace(a, false);
        assert Normalize(a + b) == [a[0]] + (Tail(a[1..], false) + Tail(b, EndsInSpace(a, false)));
      }
    }
  }

  lemma NormalizeTrims(a: string, mid: string, b: string)
    requires AllSpace(a) && AllSpace(b)
    ensures Normalize(a + mid + b) == Normalize(mid)
  {
    NormalizeHasForm(a);
    NormalizeHasForm(b);
    NormalizeAppend(a, mid);
    NormalizeAppend(a + mid, b);
    TailHasForm(b, EndsInSpace(a + mid, false));
  }

  /** What comes before a piece that starts with ink. */
  function Lead(a: string): string {
    if Normalize(a) == [] then []
    else Normalize(a) + (if EndsInSpace(a, false) then " " else [])
  }

  /** A piece that starts with ink keeps its normalized form inside any text. */
  lemma NormalizePiece(a: string, mid: string, b: string)
    requires mid != [] && !IsSpace(mid[0])
    ensures Normalize(a + mid) == Lead(a) + Normalize(mid)
    ensures Normalize(a + mid + b) == Lead(a) + Normalize(mid) + Tail(b, EndsInSpace(mid, false))
  {
    NormalizeLead(a, mid);
    assert Normalize(a + mid) != [];
    NormalizeAppend(a + mid, b);
    assert EndsInSpace(a + mid, false) == EndsInSpace(mid, false);
  }

  lemma NormalizeLead(a: string, mid: string)
    requires mid != [] && !IsSpace(mid[0])
    ensures Normalize(a + mid) == Lead(a) + Normalize(mid)
  {
    NormalizeAppend(a, mid);
    if Normalize(a) != [] {
      TailLead(mid, EndsInSpace(a, false));
      Associative(Normalize(a), if EndsInSpace(a, false) then " " else [], Normalize(mid));
    }
  }

  lemma TailLead(mid: string, pending: bool)
    requires mid != [] && !IsSpace(mid[0])
    ensures Tail(mid, pending) == (if pending then " " else []) + Normalize(mid)
  {
  }

  /** Where an inked character of the normalized text was read from. */
  lemma {:induction false} Origin(s: string, i: nat) returns (a: nat)
    requires i < |Normalize(s)| && !IsSpace(Normalize(s)[i])
    ensures a < |s| && !IsSpace(s[a])
    ensures Normalize(s[..a + 1]) == Normalize(s)[..i + 1]
    decreases |s|
  {
    var init := s[..|s| - 1];
    var last := s[|s| - 1..];
    assert s == init + last;
    NormalizeAppend(init, last);
    if i < |Normalize(init)| {
      a := Origin(init, i);
      assert init[..a + 1] == s[..a + 1];
    } else {
      a := |s| - 1;
      assert s[..a + 1] == s;
      assert last[1..] == [];
    }
  }

  /** An earlier character of the normalized text was read earlier. */
  lemma OriginsOrdered(s: string, a: nat, b: nat)
    requires a < |s| && b < |s| && |Normalize(s[..a + 1])| <= |Normalize(s[..b + 1])|
    requires !IsSpace(s[a]) && !IsSpace(s[b])
    ensures a <= b
  {
    if b < a {
      var start, more := s[..b + 1], s[b + 1..a + 1];
      assert s[..a + 1] == start + more && start[b] == s[b] && more[a - b - 1] == s[a];
      NormalizeAppend(start, more);
      NormalizeHasForm(start);
      TailHasForm(more, EndsInSpace(start, false));
    }
  }

  /** Every inked stretch of the normalized text is the normalized form of a stretch of the text. */
  lemma StretchOrigin(s: string, i: nat, j: nat) returns (a: nat, b: nat)
    requires i < j <= |Normalize(s)|
    requires !IsSpace(Normalize(s)[i]) && !IsSpace(Normalize(s)[j - 1])
    ensures a < b <= |s| && !IsSpace(s[a]) && !IsSpace(s[b - 1])
    ensures Normalize(s[a..b]) == Normalize(s)[i..j]
    ensures Normalize(s[..b]) == Normalize(s)[..j]
    ensures |Lead(s[..a])| == i
  {
    a := Origin(s, i);
    var c := Origin(s, j - 1);
    OriginsOrdered(s, a, c);
    b := c + 1;
    assert s[..a + 1] == s[..a] + s[a..a + 1];
    NormalizePiece(s[..a], s[a..a + 1], []);
    assert s[..b] == s[..a] + s[a..b];
    NormalizePiece(s[..a], s[a..b], []);
    assert Normalize(s[a..a + 1]) == [s[a]];
  }

  // ---------------------------------------------------------------- what the patterns match

  lemma JoinMatch(first: Regex, second: Regex, s: string, k: nat, fold: char -> char)
    requires k <= |s| && Matches(first, s[..k], fold) && Matches(second, s[k..], fold)
    ensures Matches(Cat(first, second), s, fold)
  {
    assert CutsAt(Cat(first, second), s, k, fold);
  }

  lemma CutMatch(first: Regex, second: Regex, s: string, fold: char -> char) returns (k: nat)
    requires Matches(Cat(first, second), s, fold)
    ensures k <= |s| && Matches(first, s[..k], fold) && Matches(second, s[k..], fold)
  {
    k :| CutsAt(Cat(first, second), s, k, fold);
  }

  lemma TurnMatch(body: Regex, s: string, fold: char -> char) returns (k: nat)
    requires Matches(Star(body), s, fold) && s != []
    ensures 0 < k <= |s| && Matches(body, s[..k], fold) && Matches(Star(body), s[k..], fold)
  {
    k :| TurnsAt(Star(body), s, k, fold);
  }

  lemma JoinAround(outer: Regex, inner: Regex, s: string, a: nat, b: nat, fold: char -> char)
    requires a <= b <= |s| && Matches(inner, s[a..b], fold)
    requires Matches(outer, s[..a], fold) && Matches(outer, s[b..], fold)
    ensures Matches(Cat(outer, Cat(inner, outer)), s, fold)
  {
    SliceOfRest(s, a, b);
    JoinMatch(inner, outer, s[a..], b - a, fold);
    JoinMatch(outer, Cat(inner, outer), s, a, fold);
  }

  lemma CutAround(outer: Regex, inner: Regex, s: string, fold: char -> char) returns (a: nat, b: nat)
    requires Matches(Cat(outer, Cat(inner, outer)), s, fold)
    ensures a <= b <= |s| && Matches(inner, s[a..b], fold)
    ensures Matches(outer, s[..a], fold) && Matches(outer, s[b..], fold)
  {
    a := CutMatch(outer, Cat(inner, outer), s, fold);
    var m := CutMatch(inner, outer, s[a..], fold);
    b := a + m;
    SliceOfRest(s, a, b);
  }

  lemma SliceOfRest(s: string, a: nat, b: nat)
    requires a <= b <= |s|
    ensures s[a..][..b - a] == s[a..b] && s[a..][b - a..] == s[b..]
  {
  }

  lemma SpaceMatches(s: string, fold: char -> char)
    requires KeepsSpace(fold)
    ensures Matches(Space, s, fold) <==> |s| == 1 && IsSpace(s[0])
  {
    if Matches(Space, s, fold) {
      var c :| IsSpace(c) && fold(c) == fold(s[0]);
      assert KeepsSpaceAt(fold, c) && KeepsSpaceAt(fold, s[0]);
    }
  }

  lemma {:induction false} SpacesMatch(s: string, fold: char -> char)
    requires KeepsSpace(fold)
    ensures Matches(Star(Space), s, fold) <==> AllSpace(s)
    decreases |s|
  {
    if s != [] {
      if AllSpace(s) {
        SpaceMatches(s[..1], fold);
        SpacesMatch(s[1..], fold);
        assert TurnsAt(Star(Space), s, 1, fold);
      }
      if Matches(Star(Space), s, fold) {
        var k := TurnMatch(Space, s, fold);
        SpaceMatches(s[..k], fold);
        SpacesMatch(s[k..], fold);
        assert s == s[..1] + s[1..];
      }
    }
  }

  lemma SomeSpacesMatch(s: string, fold: char -> char)
    requires KeepsSpace(fold)
    ensures Matches(Plus(Space), s, fold) <==> s != [] && AllSpace(s)
  {
    if s != [] && AllSpace(s) {
      SpaceMatches(s[..1], fold);
      SpacesMatch(s[1..], fold);
      assert CutsAt(Plus(Space), s, 1, fold);
    }
    if Matches(Plus(Space), s, fold) {
      var k := CutMatch(Space, Star(Space), s, fold);
      SpaceMatches(s[..k], fold);
      SpacesMatch(s[k..], fold);
      assert s == s[..1] + s[1..];
    }
  }

  lemma {:induction false} AnythingMatches(s: string, fold: char -> char)
    ensures Matches(Star(Any), s, fold)
    decreases |s|
  {
    if s != [] {
      AnythingMatches(s[1..], fold);
      assert TurnsAt(Star(Any), s, 1, fold);
    }
  }

  /** `s` reads as `u`, with one or more white space characters for each space of `u`. */
  ghost predicate Spells(u: string, s: string, fold: char -> char)
    decreases |u|
  {
    if u == [] then s == []
    else if u[0] == ' ' then
      exists k :: 1 <= k <= |s| && AllSpace(s[..k]) && Spells(u[1..], s[k..], fold)
    else s != [] && fold(s[0]) == fold(u[0]) && Spells(u[1..], s[1..], fold)
  }

  lemma {:induction false} SplitNonEmpty(s: string, word: string)
    requires word != []
    ensures Split(s, word) != []
  {
    if s != [] && s[0] != ' ' {
      SplitNonEmpty(s[1..], word + [s[0]]);
    }
  }

  /** The joined word patterns match exactly what spells the words. */
  lemma {:induction false} WordsSpell(u: string, word: string, s: string, fold: char -> char)
    requires KeepsSpace(fold) && TailForm(u) && word != []
    ensures Matches(JoinWords(Split(u, word)), s, fold) <==>
      |word| <= |s| && Alike(s[..|word|], word, fold) && Spells(u, s[|word|..], fold)
    decreases |u|
  {
    if u == [] {
      assert |s| == |word| ==> s[..|word|] == s;
    } else if IsSpace(u[0]) {
      WordsAfterGap(u, word, s, fold);
    } else {
      var longer := word + [u[0]];
      WordsSpell(u[1..], longer, s, fold);
      assert u[0] != ' ';
      if |longer| <= |s| {
        assert s[|word|..][1..] == s[|longer|..];
        assert forall i :: 0 <= i < |word| ==> longer[i] == word[i] && s[..|longer|][i] == s[..|word|][i];
        assert s[..|longer|][|word|] == s[|word|] == s[|word|..][0];
      }
    }
  }

  lemma {:induction false} WordsAfterGap(u: string, word: string, s: string, fold: char -> char)
    requires KeepsSpace(fold) && TailForm(u) && word != []
    requires u != [] && IsSpace(u[0])
    ensures Matches(JoinWords(Split(u, word)), s, fold) <==>
      |word| <= |s| && Alike(s[..|word|], word, fold) && Spells(u, s[|word|..], fold)
    decreases |u|, 0
  {
    var rest := JoinWords(Split(u[2..], [u[1]]));
    SplitAtGap(u, word);
    if Matches(JoinWords(Split(u, word)), s, fold) {
      var k := CutMatch(Literal(word), Cat(Plus(Space), rest), s, fold);
      var g := CutMatch(Plus(Space), rest, s[k..], fold);
      GapSpells(u, s[k..], g, fold);
    }
    if |word| <= |s| && Alike(s[..|word|], word, fold) && Spells(u, s[|word|..], fold) {
      var t := s[|word|..];
      var g :| 1 <= g <= |t| && AllSpace(t[..g]) && Spells(u[1..], t[g..], fold);
      GapSpells(u, t, g, fold);
      JoinMatch(Plus(Space), rest, t, g, fold);
      JoinMatch(Literal(word), Cat(Plus(Space), rest), s, |word|, fold);
    }
  }

  lemma SplitAtGap(u: string, word: string)
    requires TailForm(u) && word != [] && u != [] && IsSpace(u[0])
    ensures u[0] == ' ' && |u| >= 2
    ensures JoinWords(Split(u, word)) ==
      Cat(Literal(word), Cat(Plus(Space), JoinWords(Split(u[2..], [u[1]]))))
  {
    SplitNonEmpty(u[2..], [u[1]]);
    assert u[1] != ' ' && u[1..][1..] == u[2..] && [] + [u[1]] == [u[1]];
    assert Split(u[1..], []) == Split(u[2..], [u[1]]);
    assert Split(u, word)[1..] == Split(u[2..], [u[1]]);
  }

  /** Cutting `t` after its first `g` characters: a gap and the words after it, read either way. */
  lemma {:induction false} GapSpells(u: string, t: string, g: nat, fold: char -> char)
    requires KeepsSpace(fold) && TailForm(u) && u != [] && u[0] == ' ' && |u| >= 2 && g <= |t|
    ensures Matches(Plus(Space), t[..g], fold) && Matches(JoinWords(Split(u[2..], [u[1]])), t[g..], fold)
      <==> 1 <= g && AllSpace(t[..g]) && Spells(u[1..], t[g..], fold)
    decreases |u| - 1, 1
  {
    SomeSpacesMatch(t[..g], fold);
    WordsSpell(u[2..], [u[1]], t[g..], fold);
    assert u[1] != ' ' && u[1..][1..] == u[2..];
    if g < |t| {
      assert t[g..][..1] == [t[g..][0]];
    }
  }

  /** A run of white space before ink becomes the one space of the normalized text. */
  lemma {:induction false} TailOfGap(s: string, k: nat, pending: bool)
    requires 1 <= k < |s| && AllSpace(s[..k]) && !IsSpace(s[k])
    ensures Tail(s, pending) == [' '] + Tail(s[k..], false)
  {
    assert s[..k][0] == s[0];
    if k == 1 {
    } else {
      assert s[1..][..k - 1] == s[..k][1..];
      assert s[1..][k - 1..] == s[k..];
      TailOfGap(s[1..], k - 1, true);
    }
  }

  /** Spelling is agreeing once normalized, for text that does not end in white space. */
  lemma {:induction false} SpellsIsNormalized(u: string, s: string, fold: char -> char)
    requires KeepsSpace(fold) && TailForm(u)
    ensures Spells(u, s, fold) <==> Alike(Tail(s, false), u, fold) && !EndsInSpace(s, false)
    decreases |u|
  {
    TailHasForm(s, false);
    if u == [] {
    } else if IsSpace(u[0]) {
      SpellsGap(u, s, fold);
    } else {
      assert KeepsSpaceAt(fold, u[0]);
      if s != [] {
        assert KeepsSpaceAt(fold, s[0]);
        SpellsIsNormalized(u[1..], s[1..], fold);
        if IsSpace(s[0]) {
          if Tail(s, false) != [] {
            assert KeepsSpaceAt(fold, Tail(s, false)[0]);
          }
        } else {
          AlikeCons(s[0], Tail(s[1..], false), u, fold);
        }
      }
    }
  }

  lemma AlikeCons(c: char, t: string, u: string, fold: char -> char)
    requires u != []
    ensures Alike([c] + t, u, fold) <==> fold(c) == fold(u[0]) && Alike(t, u[1..], fold)
  {
    if Alike([c] + t, u, fold) {
      assert ([c] + t)[0] == c;
      assert forall i :: 0 <= i < |t| ==> t[i] == ([c] + t)[i + 1] && u[1..][i] == u[i + 1];
    }
  }

  lemma AlikeInk(a: string, b: string, i: nat, fold: char -> char)
    requires KeepsSpace(fold) && Alike(a, b, fold) && i < |a|
    ensures IsSpace(a[i]) == IsSpace(b[i])
  {
    assert KeepsSpaceAt(fold, a[i]) && KeepsSpaceAt(fold, b[i]);
  }

  lemma {:induction false} SpellsGap(u: string, s: string, fold: char -> char)
    requires KeepsSpace(fold) && TailForm(u) && u != [] && IsSpace(u[0])
    ensures Spells(u, s, fold) <==> Alike(Tail(s, false), u, fold) && !EndsInSpace(s, false)
    decreases |u|, 0
  {
    assert u[0] == ' ' && u[1..][0] == u[1] && u[1..][1..] == u[2..];
    assert KeepsSpaceAt(fold, u[1]) && KeepsSpaceAt(fold, u[0]);
    if Spells(u, s, fold) {
      var k :| 1 <= k <= |s| && AllSpace(s[..k]) && Spells(u[1..], s[k..], fold);
      SpellsIsNormalized(u[1..], s[k..], fold);
      assert KeepsSpaceAt(fold, s[k]);
      TailOfGap(s, k, false);
      AlikeCons(' ', Tail(s[k..], false), u, fold);
    }
    if Alike(Tail(s, false), u, fold) && !EndsInSpace(s, false) {
      assert KeepsSpaceAt(fold, Tail(s, false)[0]);
      TailHasForm(s, false);
      assert IsSpace(s[0]);
      var k := GapLength(s);
      TailOfGap(s, k, false);
      AlikeCons(' ', Tail(s[k..], false), u, fold);
      SpellsIsNormalized(u[1..], s[k..], fold);
      assert 1 <= k <= |s| && AllSpace(s[..k]) && Spells(u[1..], s[k..], fold);
    }
  }

  lemma {:induction false} GapLength(s: string) returns (k: nat)
    requires s != [] && IsSpace(s[0]) && !IsSpace(s[|s| - 1])
    ensures 1 <= k < |s| && AllSpace(s[..k]) && !IsSpace(s[k])
  {
    if IsSpace(s[1]) {
      k := GapLength(s[1..]);
      k := k + 1;
      assert forall i :: 0 < i < k ==> s[..k][i] == s[1..][..k - 1][i - 1];
    } else {
      k := 1;
    }
  }

  /** The word pattern of a query with words matches the inked texts that normalize to it. */
  lemma WordsPatternMatches(query: string, mid: string, fold: char -> char)
    requires KeepsSpace(fold) && Normalize(query) != []
    ensures Matches(WordsPattern(query), mid, fold) <==>
      mid != [] && !IsSpace(mid[0]) && !IsSpace(mid[|mid| - 1])
      && Alike(Normalize(mid), Normalize(query), fold)
  {
    var n := Normalize(query);
    NormalizeHasForm(query);
    assert n[0] != ' ' && [] + [n[0]] == [n[0]];
    assert WordsPattern(query) == JoinWords(Split(n[1..], [n[0]]));
    WordsSpell(n[1..], [n[0]], mid, fold);
    if mid != [] {
      assert mid[..1] == [mid[0]];
      InkAlike(mid, n, fold);
    }
  }

  lemma InkAlike(mid: string, n: string, fold: char -> char)
    requires KeepsSpace(fold) && mid != [] && n != [] && !IsSpace(n[0]) && TailForm(n[1..])
    ensures fold(mid[0]) == fold(n[0]) && Spells(n[1..], mid[1..], fold) <==>
      !IsSpace(mid[0]) && !IsSpace(mid[|mid| - 1]) && Alike(Normalize(mid), n, fold)
  {
    assert KeepsSpaceAt(fold, mid[0]) && KeepsSpaceAt(fold, n[0]);
    if !IsSpace(mid[0]) {
      SpellsIsNormalized(n[1..], mid[1..], fold);
      AlikeCons(mid[0], Tail(mid[1..], false), n, fold);
      assert EndsInSpace(mid[1..], false) == IsSpace(mid[|mid| - 1]);
    }
  }

  // ---------------------------------------------------------------- the agreements

  lemma WordlessPattern(query: string, s: string, fold: char -> char)
    requires Normalize(query) == []
    ensures Matches(WordsPattern(query), s, fold) <==> s == []
  {
  }

  /** A label fully matches the exact pattern iff it equals the query once both are normalized. */
  lemma ExactPatternAgrees(query: string, text: string)
    ensures Matches(ExactPattern(query), text, Same) <==> Equals(text, query)
  {
    if Matches(ExactPattern(query), text, Same) {
      var a, b := CutAround(Star(Space), WordsPattern(query), text, Same);
      ExactFromPieces(query, text, a, b);
    }
    if Equals(text, query) {
      var a, b := ExactPieces(text);
      WordsPatternExact(query, text[a..b]);
      assert KeepsSpace(Same);
      SpacesMatch(text[..a], Same);
      SpacesMatch(text[b..], Same);
      JoinAround(Star(Space), WordsPattern(query), text, a, b, Same);
    }
  }

  /** Compared letter by letter, the word pattern matches a trimmed text iff it equals the query. */
  lemma WordsPatternExact(query: string, mid: string)
    requires mid != [] ==> !IsSpace(mid[0]) && !IsSpace(mid[|mid| - 1])
    ensures Matches(WordsPattern(query), mid, Same) <==> Equals(mid, query)
  {
    assert KeepsSpace(Same);
    NormalizeHasForm(mid);
    if Normalize(query) == [] {
      WordlessPattern(query, mid, Same);
    } else {
      WordsPatternMatches(query, mid, Same);
    }
  }

  lemma ExactFromPieces(query: string, text: string, a: nat, b: nat)
    requires a <= b <= |text| && Matches(WordsPattern(query), text[a..b], Same)
    requires Matches(Star(Space), text[..a], Same) && Matches(Star(Space), text[b..], Same)
    ensures Equals(text, query)
  {
    assert KeepsSpace(Same);
    SpacesMatch(text[..a], Same);
    SpacesMatch(text[b..], Same);
    assert text == text[..a] + text[a..b] + text[b..];
    NormalizeTrims(text[..a], text[a..b], text[b..]);
    if Normalize(query) == [] {
      WordlessPattern(query, text[a..b], Same);
    } else {
      WordsPatternMatches(query, text[a..b], Same);
    }
  }

  /** A text is its ink between two runs of white space. */
  lemma ExactPieces(text: string) returns (a: nat, b: nat)
    ensures a <= b <= |text| && AllSpace(text[..a]) && AllSpace(text[b..])
    ensures Normalize(text[a..b]) == Normalize(text)
    ensures a < b ==> !IsSpace(text[a]) && !IsSpace(text[b - 1])
    ensures Normalize(text) == [] <==> a == b
  {
    NormalizeHasForm(text);
    var n := Normalize(text);
    if n == [] {
      a, b := |text|, |text|;
      assert text[..a] == text;
    } else {
      a, b := StretchOrigin(text, 0, |n|);
      assert n[..|n|] == n;
      NormalizeHasForm(text[..a]);
      NothingAfter(text, b);
    }
  }

  lemma NothingAfter(text: string, b: nat)
    requires b <= |text| && Normalize(text[..b]) == Normalize(text) != []
    ensures AllSpace(text[b..])
  {
    assert text == text[..b] + text[b..];
    NormalizeAppend(text[..b], text[b..]);
    TailHasForm(text[b..], EndsInSpace(text[..b], false));
  }

  /**
   A label matches the substring pattern iff its normalized form, case folded, contains the query's;
   the shortcut for an empty text changes nothing.
   */
  lemma ContainsAgrees(query: string, text: string, fold: char -> char)
    requires KeepsSpace(fold)
    ensures Contains(text, query, fold) <==> HasPart(Normalize(text), Normalize(query), fold)
    ensures Contains(text, query, fold) <==> Matches(ContainsPattern(query), text, fold)
  {
    if Matches(ContainsPattern(query), text, fold) {
      PatternGivesPart(query, text, fold);
    }
    if HasPart(Normalize(text), Normalize(query), fold) {
      PartGivesPattern(query, text, fold);
    }
    if text == [] && Normalize(query) == [] {
      assert PartAt(Normalize(text), Normalize(query), 0, fold);
    }
  }

  lemma PatternGivesPart(query: string, text: string, fold: char -> char)
    requires KeepsSpace(fold)
    requires Matches(ContainsPattern(query), text, fold)
    ensures HasPart(Normalize(text), Normalize(query), fold)
  {
    var n, whole := Normalize(query), Normalize(text);
    if n == [] {
      assert PartAt(whole, n, 0, fold);
    } else {
      var a, b := CutAround(Star(Any), WordsPattern(query), text, fold);
      WordsPatternMatches(query, text[a..b], fold);
      PieceIsPart(text, n, a, b, fold);
    }
  }

  /** A stretch of a text that starts in ink is a part of it once both are normalized. */
  lemma PieceIsPart(text: string, n: string, a: nat, b: nat, fold: char -> char)
    requires a < b <= |text| && !IsSpace(text[a]) && Alike(Normalize(text[a..b]), n, fold)
    ensures HasPart(Normalize(text), n, fold)
  {
    assert text == text[..a] + text[a..b] + text[b..];
    NormalizePiece(text[..a], text[a..b], text[b..]);
    var i := |Lead(text[..a])|;
    assert Normalize(text)[i..i + |n|] == Normalize(text[a..b]);
    assert PartAt(Normalize(text), n, i, fold);
  }

  lemma PartGivesPattern(query: string, text: string, fold: char -> char)
    requires KeepsSpace(fold)
    requires HasPart(Normalize(text), Normalize(query), fold)
    ensures Matches(ContainsPattern(query), text, fold)
  {
    var a, b := 0, 0;
    if Normalize(query) == [] {
      WordlessPattern(query, text[a..b], fold);
    } else {
      a, b := PartOrigin(query, text, fold);
      WordsPatternMatches(query, text[a..b], fold);
    }
    AnythingMatches(text[..a], fold);
    AnythingMatches(text[b..], fold);
    JoinAround(Star(Any), WordsPattern(query), text, a, b, fold);
  }

  /** The stretch of the text behind a part of its normalized form. */
  lemma PartOrigin(query: string, text: string, fold: char -> char) returns (a: nat, b: nat)
    requires KeepsSpace(fold) && Normalize(query) != []
    requires HasPart(Normalize(text), Normalize(query), fold)
    ensures a < b <= |text| && !IsSpace(text[a]) && !IsSpace(text[b - 1])
    ensures Alike(Normalize(text[a..b]), Normalize(query), fold)
  {
    NormalizeHasForm(query);
    var i :| PartAt(Normalize(text), Normalize(query), i, fold);
    a, b := PartStretch(text, Normalize(query), i, fold);
  }

  lemma PartStretch(text: string, n: string, i: nat, fold: char -> char) returns (a: nat, b: nat)
    requires KeepsSpace(fold) && n != [] && !IsSpace(n[0]) && !IsSpace(n[|n| - 1])
    requires PartAt(Normalize(text), n, i, fold)
    ensures a < b <= |text| && !IsSpace(text[a]) && !IsSpace(text[b - 1])
    ensures Alike(Normalize(text[a..b]), n, fold)
  {
    PartEnds(Normalize(text), n, i, fold);
    a, b := StretchOrigin(text, i, i + |n|);
  }

  /** A part like one that starts and ends in ink does so too. */
  lemma PartEnds(whole: string, n: string, i: nat, fold: char -> char)
    requires KeepsSpace(fold) && n != [] && !IsSpace(n[0]) && !IsSpace(n[|n| - 1]) && PartAt(whole, n, i, fold)
    ensures !IsSpace(whole[i]) && !IsSpace(whole[i + |n| - 1])
  {
    var part := whole[i..i + |n|];
    assert part[0] == whole[i] && part[|n| - 1] == whole[i + |n| - 1];
    AlikeInk(part, n, 0, fold);
    AlikeInk(part, n, |n| - 1, fold);
  }
}
