/**
 Escaping text for the hierarchy dump and reading it back (predefined entities, section 4.6 of XML 1.0).
 Both are written as five replacements one after the other; each does the work of a single pass, and the
 second undoes the first.
 */
module XmlText {
  import opened Sequences

  /** `replacingOccurrences(of:with:)`: from the left, without overlaps, and never inside what was put in. */
  function ReplaceAll(s: string, pat: string, rep: string): string
    requires pat != []
  {
    if s == [] then []
    else if pat <= s then rep + ReplaceAll(s[|pat|..], pat, rep)
    else [s[0]] + ReplaceAll(s[1..], pat, rep)
  }

  function Escape(s: string): string {
    var s1 := ReplaceAll(s, "&", "&amp;");
    var s2 := ReplaceAll(s1, "<", "&lt;");
    var s3 := ReplaceAll(s2, ">", "&gt;");
    var s4 := ReplaceAll(s3, "\"", "&quot;");
    ReplaceAll(s4, "'", "&apos;")
  }

  function Decode(s: string): string {
    var s1 := ReplaceAll(s, "&quot;", "\"");
    var s2 := ReplaceAll(s1, "&apos;", "'");
    var s3 := ReplaceAll(s2, "&lt;", "<");
    var s4 := ReplaceAll(s3, "&gt;", ">");
    ReplaceAll(s4, "&amp;", "&")
  }

  // ---------------------------------------------------------------- the single passes

  predicate IsMarkup(c: char) {
    c == '&' || c == '<' || c == '>' || c == '\"' || c == '\''
  }

  /** The five entities, in the order `decode` replaces them. */
  function Entity(k: nat): string
    requires k < 5
  {
    if k == 0 then "&quot;" else if k == 1 then "&apos;" else if k == 2 then "&lt;"
    else if k == 3 then "&gt;" else "&amp;"
  }

  function Meaning(k: nat): char
    requires k < 5
  {
    if k == 0 then '\"' else if k == 1 then '\'' else if k == 2 then '<' else if k == 3 then '>' else '&'
  }

  function EscapeChar(c: char): (r: string)
    ensures r != []
  {
    if c == '&' then "&amp;" else if c == '<' then "&lt;" else if c == '>' then "&gt;"
    else if c == '\"' then "&quot;" else if c == '\'' then "&apos;" else [c]
  }

  function EscapeOnce(s: string): string {
    if s == [] then [] else EscapeChar(s[0]) + EscapeOnce(s[1..])
  }

  /** The number of the entity `s` starts with, or 5 for none. */
  function EntityAt(s: string): (k: nat)
    ensures k <= 5
    ensures k < 5 ==> Entity(k) <= s
    ensures k == 5 ==> forall j :: 0 <= j < 5 ==> !(Entity(j) <= s)
  {
    if "&quot;" <= s then 0 else if "&apos;" <= s then 1 else if "&lt;" <= s then 2
    else if "&gt;" <= s then 3 else if "&amp;" <= s then 4 else 5
  }

  function DecodeOnce(s: string): string
    decreases |s|
  {
    if s == [] then []
    else
      var k := EntityAt(s);
      if k < 5 then [Meaning(k)] + DecodeOnce(s[|Entity(k)|..]) else [s[0]] + DecodeOnce(s[1..])
  }

  // ---------------------------------------------------------------- escaping in one pass

  lemma {:induction false} ReplaceCharAppend(a: string, b: string, c: char, rep: string)
    ensures ReplaceAll(a + b, [c], rep) == ReplaceAll(a, [c], rep) + ReplaceAll(b, [c], rep)
  {
    if a == [] {
      assert a + b == b;
    } else {
      assert (a + b)[1..] == a[1..] + b;
      ReplaceCharAppend(a[1..], b, c, rep);
      assert [c] <= a + b <==> [c] <= a;
      var head := if [c] <= a then rep else [a[0]];
      Associative(head, ReplaceAll(a[1..], [c], rep), ReplaceAll(b, [c], rep));
    }
  }

  lemma {:induction false} ReplaceAbsent(s: string, c: char, rep: string)
    requires c !in s
    ensures ReplaceAll(s, [c], rep) == s
  {
    if s != [] {
      assert s[0] in s && forall d :: d in s[1..] ==> d in s;
      ReplaceAbsent(s[1..], c, rep);
      assert s == [s[0]] + s[1..];
    }
  }

  lemma ReplaceOnly(c: char, rep: string)
    ensures ReplaceAll([c], [c], rep) == rep
  {
    assert ReplaceAll([c][1..], [c], rep) == [];
  }

  lemma EscapeAppend(a: string, b: string)
    ensures Escape(a + b) == Escape(a) + Escape(b)
  {
    ReplaceCharAppend(a, b, '&', "&amp;");
    var a1, b1 := ReplaceAll(a, "&", "&amp;"), ReplaceAll(b, "&", "&amp;");
    ReplaceCharAppend(a1, b1, '<', "&lt;");
    var a2, b2 := ReplaceAll(a1, "<", "&lt;"), ReplaceAll(b1, "<", "&lt;");
    ReplaceCharAppend(a2, b2, '>', "&gt;");
    var a3, b3 := ReplaceAll(a2, ">", "&gt;"), ReplaceAll(b2, ">", "&gt;");
    ReplaceCharAppend(a3, b3, '\"', "&quot;");
    ReplaceCharAppend(ReplaceAll(a3, "\"", "&quot;"), ReplaceAll(b3, "\"", "&quot;"), '\'', "&apos;");
  }

  /** Replacing `c` where it is the whole text, and nowhere in texts without it. */
  lemma ReplaceOne(s: string, c: char, rep: string)
    requires s == [c] || c !in s
    ensures ReplaceAll(s, [c], rep) == if s == [c] then rep else s
  {
    if s == [c] {
      ReplaceOnly(c, rep);
    } else {
      ReplaceAbsent(s, c, rep);
    }
  }

  lemma EscapeOfChar(c: char)
    ensures Escape([c]) == EscapeChar(c)
  {
    ReplaceOne([c], '&', "&amp;");
    if c == '&' {
      EscapeOfAmpersand();
    } else {
      ReplaceOne([c], '<', "&lt;");
      if c == '<' {
        LaterStages("&lt;");
      } else {
        LaterStages([c]);
      }
    }
  }

  lemma EscapeOfAmpersand()
    ensures Escape("&") == "&amp;"
  {
    ReplaceOnly('&', "&amp;");
    ReplaceAbsent("&amp;", '<', "&lt;");
    LaterStages("&amp;");
  }

  /** Three replacements, on a single character or a text with nothing left to replace. */
  lemma ThreeStages(s: string, b: char, rb: string, c: char, rc: string, d: char, rd: string)
    requires b != c && b != d && c != d && c !in rb && d !in rb && d !in rc
    requires |s| == 1 || (b !in s && c !in s && d !in s)
    ensures ReplaceAll(ReplaceAll(ReplaceAll(s, [b], rb), [c], rc), [d], rd)
      == if s == [b] then rb else if s == [c] then rc else if s == [d] then rd else s
  {
    ReplaceOne(s, b, rb);
    if s == [b] {
      ReplaceAbsent(rb, c, rc);
      ReplaceAbsent(rb, d, rd);
    } else {
      TwoStages(s, c, rc, d, rd);
    }
  }

  lemma LaterStages(s: string)
    requires |s| == 1 || ('>' !in s && '\"' !in s && '\'' !in s)
    ensures ReplaceAll(ReplaceAll(ReplaceAll(s, ">", "&gt;"), "\"", "&quot;"), "'", "&apos;")
      == if s == ">" then "&gt;" else if s == "\"" then "&quot;" else if s == "'" then "&apos;" else s
  {
    ThreeStages(s, '>', "&gt;", '\"', "&quot;", '\'', "&apos;");
  }

  lemma TwoStages(s: string, c: char, rc: string, d: char, rd: string)
    requires c != d && d !in rc && (|s| == 1 || (c !in s && d !in s))
    ensures ReplaceAll(ReplaceAll(s, [c], rc), [d], rd) == if s == [c] then rc else if s == [d] then rd else s
  {
    ReplaceOne(s, c, rc);
    if s == [c] {
      ReplaceAbsent(rc, d, rd);
    } else {
      ReplaceOne(s, d, rd);
    }
  }

  /** The five replacements of `escapeXML` are one pass over the characters, on every string. */
  lemma {:induction false} EscapeIsOnePass(s: string)
    ensures Escape(s) == EscapeOnce(s)
  {
    if s == [] {
    } else {
      EscapeIsOnePass(s[1..]);
      assert s == [s[0]] + s[1..];
      EscapeAppend([s[0]], s[1..]);
      EscapeOfChar(s[0]);
    }
  }

  // ---------------------------------------------------------------- decoding in one pass

  /** A replacement of an entity by its meaning leaves other entities alone, and what follows them to itself. */
  lemma {:induction false} ReplaceSkips(pre: string, t: string, pat: string, rep: string)
    requires pat != [] && pat[0] == '&'
    requires forall i :: 0 <= i < |pre| ==> pre[i] != '&'
    ensures ReplaceAll(pre + t, pat, rep) == pre + ReplaceAll(t, pat, rep)
  {
    if pre == [] {
      assert pre + t == t;
    } else {
      assert (pre + t)[0] == pre[0] && (pre + t)[1..] == pre[1..] + t;
      ReplaceSkips(pre[1..], t, pat, rep);
      assert [pre[0]] + (pre[1..] + ReplaceAll(t, pat, rep)) == pre + ReplaceAll(t, pat, rep);
    }
  }

  /** An entity begins with its only ampersand, has no other markup, and no two begin alike in three characters. */
  lemma EntityShape(k: nat, j: nat)
    requires k < 5 && j < 5
    ensures |Entity(k)| >= 4 && Entity(k)[0] == '&'
    ensures forall i :: 1 <= i < |Entity(k)| ==> !IsMarkup(Entity(k)[i])
    ensures j != k ==> Entity(j)[1] != Entity(k)[1] || Entity(j)[2] != Entity(k)[2]
    ensures IsMarkup(Meaning(k)) && (Meaning(k) == '&' <==> k == 4)
  {
  }

  lemma SkipsOtherEntity(k: nat, t: string, j: nat, rep: string)
    requires k < 5 && j < 5 && j != k
    ensures ReplaceAll(Entity(k) + t, Entity(j), rep) == Entity(k) + ReplaceAll(t, Entity(j), rep)
  {
    EntityShape(k, j);
    EntityShape(j, k);
    SkipsText(Entity(k), t, Entity(j), rep);
  }

  lemma SkipsText(e: string, t: string, pat: string, rep: string)
    requires |e| >= 4 && |pat| >= 4 && pat[0] == '&' && (pat[1] != e[1] || pat[2] != e[2])
    requires forall i :: 1 <= i < |e| ==> e[i] != '&'
    ensures ReplaceAll(e + t, pat, rep) == e + ReplaceAll(t, pat, rep)
  {
    var s := e + t;
    assert s[1] == e[1] && s[2] == e[2];
    assert !(pat <= s);
    assert s[1..] == e[1..] + t;
    ReplaceSkips(e[1..], t, pat, rep);
    assert [e[0]] + (e[1..] + ReplaceAll(t, pat, rep)) == e + ReplaceAll(t, pat, rep);
  }

  lemma ReplacesPattern(pat: string, t: string, rep: string)
    requires pat != []
    ensures ReplaceAll(pat + t, pat, rep) == rep + ReplaceAll(t, pat, rep)
  {
    assert (pat + t)[|pat|..] == t;
  }

  /** What starts a result that has none of the character put in started the text already. */
  lemma {:induction false} PrefixWasThere(t: string, pat: string, rep: char, p: string)
    requires pat != [] && rep !in p && p <= ReplaceAll(t, pat, [rep])
    ensures p <= t
  {
    if p != [] {
      var r := ReplaceAll(t, pat, [rep]);
      assert r[0] == p[0] && p[0] in p;
      assert !(pat <= t);
      assert r[1..] == ReplaceAll(t[1..], pat, [rep]);
      assert p[1..] <= r[1..];
      assert forall c :: c in p[1..] ==> c in p;
      PrefixWasThere(t[1..], pat, rep, p[1..]);
      assert t == [t[0]] + t[1..] && p == [p[0]] + p[1..];
    }
  }

  /** A text that does not start with `e` still does not, after replacing something else by a character not in `e`. */
  lemma StillNotThere(s: string, pat: string, rep: char, e: string)
    requires s != [] && pat != [] && !(pat <= s) && !(e <= s) && e != [] && rep !in e[1..]
    ensures !(e <= ReplaceAll(s, pat, [rep]))
  {
    var r := ReplaceAll(s, pat, [rep]);
    if e <= r {
      assert r[1..] == ReplaceAll(s[1..], pat, [rep]);
      PrefixWasThere(s[1..], pat, rep, e[1..]);
    }
  }

  /** A text that starts with no entity keeps its first character, and still starts with none. */
  lemma PlainHeadStays(s: string, j: nat)
    requires s != [] && EntityAt(s) == 5 && j < 5
    ensures var r := ReplaceAll(s, Entity(j), [Meaning(j)]);
      r == [s[0]] + ReplaceAll(s[1..], Entity(j), [Meaning(j)]) && EntityAt(r) == 5
  {
    var r := ReplaceAll(s, Entity(j), [Meaning(j)]);
    forall k: nat | k < 5 ensures !(Entity(k) <= r) {
      EntityShape(k, j);
      EntityShape(j, k);
      StillNotThere(s, Entity(j), Meaning(j), Entity(k));
    }
  }

  /** The `n` last of the five replacements of `decode`. */
  function DecodeFrom(s: string, j: nat): string
    requires j <= 5
    decreases 5 - j
  {
    if j == 5 then s else DecodeFrom(ReplaceAll(s, Entity(j), [Meaning(j)]), j + 1)
  }

  lemma DecodeIsFive(s: string)
    ensures Decode(s) == DecodeFrom(s, 0)
  {
    var s1 := ReplaceAll(s, "&quot;", "\"");
    var s2 := ReplaceAll(s1, "&apos;", "'");
    var s3 := ReplaceAll(s2, "&lt;", "<");
    var s4 := ReplaceAll(s3, "&gt;", ">");
    var s5 := ReplaceAll(s4, "&amp;", "&");
    assert DecodeFrom(s, 0) == DecodeFrom(s1, 1) == DecodeFrom(s2, 2);
    assert DecodeFrom(s2, 2) == DecodeFrom(s3, 3) == DecodeFrom(s4, 4) == DecodeFrom(s5, 5);
  }

  /** Every replacement passes a plain first character by. */
  lemma {:induction false} DecodePlainHead(s: string, j: nat)
    requires j <= 5 && s != [] && EntityAt(s) == 5
    ensures DecodeFrom(s, j) == [s[0]] + DecodeFrom(s[1..], j)
    decreases 5 - j
  {
    if j < 5 {
      PlainHeadStays(s, j);
      DecodePlainHead(ReplaceAll(s, Entity(j), [Meaning(j)]), j + 1);
    } else {
      assert s == [s[0]] + s[1..];
    }
  }

  /** A character that is no ampersand is passed by, whatever follows. */
  lemma {:induction false} DecodeMeaning(c: char, t: string, j: nat)
    requires j <= 5 && c != '&'
    ensures DecodeFrom([c] + t, j) == [c] + DecodeFrom(t, j)
    decreases 5 - j
  {
    if j < 5 {
      EntityShape(j, j);
      ReplaceSkips([c], t, Entity(j), [Meaning(j)]);
      DecodeMeaning(c, ReplaceAll(t, Entity(j), [Meaning(j)]), j + 1);
    }
  }

  /** An entity at the start becomes its meaning, and the rest is decoded by itself. */
  lemma {:induction false} DecodeEntityHead(k: nat, t: string, j: nat)
    requires k < 5 && j <= k
    ensures DecodeFrom(Entity(k) + t, j) == [Meaning(k)] + DecodeFrom(t, j)
    decreases 5 - j
  {
    var rest := ReplaceAll(t, Entity(j), [Meaning(j)]);
    if j < k {
      SkipsOtherEntity(k, t, j, [Meaning(j)]);
      DecodeEntityHead(k, rest, j + 1);
    } else {
      ReplacesPattern(Entity(k), t, [Meaning(k)]);
      if k < 4 {
        EntityShape(k, k);
        DecodeMeaning(Meaning(k), rest, k + 1);
      }
    }
  }

  /** The five replacements of `decode` are one pass, on every string, escaped or not. */
  lemma {:induction false} DecodeIsOnePass(s: string)
    ensures Decode(s) == DecodeOnce(s)
    decreases |s|
  {
    DecodeIsFive(s);
    if s != [] {
      var k := EntityAt(s);
      if k < 5 {
        var t := s[|Entity(k)|..];
        assert s == Entity(k) + t;
        DecodeEntityHead(k, t, 0);
        DecodeIsFive(t);
        DecodeIsOnePass(t);
      } else {
        DecodePlainHead(s, 0);
        DecodeIsFive(s[1..]);
        DecodeIsOnePass(s[1..]);
      }
    }
  }

  // ---------------------------------------------------------------- there and back

  lemma DecodeOnceOfChar(c: char, t: string)
    ensures DecodeOnce(EscapeChar(c) + t) == [c] + DecodeOnce(t)
  {
    EscapeCharIs(c);
    if IsMarkup(c) {
      var k: nat :| k < 5 && EscapeChar(c) == Entity(k) && Meaning(k) == c;
      DecodeOnceOfEntity(k, t);
    } else {
      assert ([c] + t)[1..] == t;
      NoEntity([c] + t);
    }
  }

  lemma NoEntity(s: string)
    requires s != [] && s[0] != '&'
    ensures EntityAt(s) == 5
  {
  }

  lemma DecodeOnceOfEntity(k: nat, t: string)
    requires k < 5
    ensures EscapeChar(Meaning(k)) == Entity(k)
    ensures EntityAt(Entity(k) + t) == k && DecodeOnce(Entity(k) + t) == [Meaning(k)] + DecodeOnce(t)
  {
    var s := Entity(k) + t;
    assert s[1] == Entity(k)[1] && s[2] == Entity(k)[2];
    EntityShape(EntityAt(s), k);
    assert s[|Entity(k)|..] == t;
  }

  /** Decoding undoes escaping, on every string. */
  lemma {:induction false} RoundTrip(s: string)
    ensures Decode(Escape(s)) == s
    decreases |s|
  {
    EscapeIsOnePass(s);
    DecodeIsOnePass(Escape(s));
    if s != [] {
      RoundTrip(s[1..]);
      EscapeIsOnePass(s[1..]);
      DecodeIsOnePass(Escape(s[1..]));
      DecodeOnceOfChar(s[0], EscapeOnce(s[1..]));
      assert s == [s[0]] + s[1..];
    }
  }

  /** No two strings are escaped alike. */
  lemma EscapeInjective(a: string, b: string)
    requires Escape(a) == Escape(b)
    ensures a == b
  {
    RoundTrip(a);
    RoundTrip(b);
  }

  /** No raw quote or angle bracket, and an ampersand only at the start of an entity. */
  predicate IsEscaped(s: string) {
    forall i | 0 <= i < |s| :: IsMarkup(s[i]) ==> s[i] == '&' && EntityAt(s[i..]) < 5
  }

  /** A text by its first entity, or its first character, and the rest. */
  lemma EscapedUnfolds(s: string, head: string, t: string)
    requires s == head + t && s != []
    requires head == if EntityAt(s) < 5 then Entity(EntityAt(s)) else [s[0]]
    ensures IsEscaped(s) <==> (EntityAt(s) < 5 || !IsMarkup(s[0])) && IsEscaped(t)
  {
    var k, n := EntityAt(s), |head|;
    assert s[0..] == s;
    forall i | 0 <= i < |t| ensures t[i] == s[n + i] && t[i..] == s[n + i..] {
    }
    if k < 5 {
      EntityShape(k, k);
    }
    if IsEscaped(s) {
      forall i | 0 <= i < |t| && IsMarkup(t[i]) ensures t[i] == '&' && EntityAt(t[i..]) < 5 {
        assert IsMarkup(s[n + i]);
      }
    }
    if (k < 5 || !IsMarkup(s[0])) && IsEscaped(t) {
      forall i | 0 <= i < |s| && IsMarkup(s[i]) ensures s[i] == '&' && EntityAt(s[i..]) < 5 {
        if i >= n {
          assert t[i - n] == s[i] && t[i - n..] == s[i..];
        } else {
          assert s[i] == head[i];
        }
      }
    }
  }

  lemma EscapeCharIs(c: char)
    ensures if IsMarkup(c)
      then exists k: nat :: k < 5 && EscapeChar(c) == Entity(k) && Meaning(k) == c
      else EscapeChar(c) == [c]
  {
    if IsMarkup(c) {
      var k := if c == '\"' then 0 else if c == '\'' then 1 else if c == '<' then 2 else if c == '>' then 3 else 4;
      assert EscapeChar(c) == Entity(k) && Meaning(k) == c;
    }
  }

  lemma Cancel(head: string, x: string, y: string)
    ensures head + x == head + y <==> x == y
  {
    assert (head + x)[|head|..] == x && (head + y)[|head|..] == y;
  }

  /** Escaping undoes decoding on exactly the texts without raw markup. */
  lemma {:induction false} EscapedIff(s: string)
    ensures IsEscaped(s) <==> Escape(Decode(s)) == s
    decreases |s|
  {
    DecodeIsOnePass(s);
    EscapeIsOnePass(Decode(s));
    if s != [] {
      var k := EntityAt(s);
      var head := if k < 5 then Entity(k) else [s[0]];
      var c := if k < 5 then Meaning(k) else s[0];
      var t := s[|head|..];
      assert s == head + t;
      EscapedIff(t);
      DecodeIsOnePass(t);
      EscapeIsOnePass(Decode(t));
      EscapedUnfolds(s, head, t);
      var back := EscapeOnce(DecodeOnce(t));
      EscapeOnceOfFirst(c, DecodeOnce(t));
      assert Escape(Decode(s)) == EscapeChar(c) + back;
      EscapeCharIs(c);
      if k < 5 {
        DecodeOnceOfEntity(k, t);
        Cancel(head, back, t);
      } else if IsMarkup(c) {
        assert forall j: nat :: j < 5 ==> !(Entity(j) <= s);
      } else {
        Cancel(head, back, t);
      }
    }
  }

  lemma EscapeOnceOfFirst(c: char, s: string)
    ensures EscapeOnce([c] + s) == EscapeChar(c) + EscapeOnce(s)
  {
    assert ([c] + s)[1..] == s;
  }

  /** The texts without raw markup are exactly those that come from escaping. */
  lemma EscapedIffEscape(s: string)
    ensures IsEscaped(s) <==> exists t :: Escape(t) == s
  {
    EscapedIff(s);
    forall t | Escape(t) == s ensures IsEscaped(s) {
      RoundTrip(t);
    }
  }
}
