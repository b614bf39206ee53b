/** Answer normalisation of the chat endpoint: every maximal run of white space is
    replaced by one space (the global `/\s+/` replacement) and the ends are then
    trimmed (`String.prototype.trim`). Both use the same ECMAScript white-space set. */
module Whitespace {

  /** The ECMAScript WhiteSpace and LineTerminator code points: what `\s` matches
      and what `trim()` strips. U+0009 to U+000D are tab, line feed, vertical tab,
      form feed and carriage return. */
  predicate IsWs(c: char) {
    var n := c as int;
    || (0x09 <= n <= 0x0D) || n == 0x20 || n == 0xA0 || n == 0x1680
    || (0x2000 <= n <= 0x200A) || n == 0x2028 || n == 0x2029 || n == 0x202F
    || n == 0x205F || n == 0x3000 || n == 0xFEFF
  }

  predicate AllWs(s: string) {
    forall i :: 0 <= i < |s| ==> IsWs(s[i])
  }

  /** The only white space in `s` is the plain space. */
  predicate SpacesOnly(s: string) {
    forall i :: 0 <= i < |s| && IsWs(s[i]) ==> s[i] == ' '
  }

  /** No two white-space characters stand side by side in `s`. */
  predicate NoWsRun(s: string) {
    forall i :: 0 <= i < |s| - 1 ==> !(IsWs(s[i]) && IsWs(s[i + 1]))
  }

  predicate Trimmed(s: string) {
    s == [] || (!IsWs(s[0]) && !IsWs(s[|s| - 1]))
  }

  /** The shape of every normalised answer. */
  predicate Normal(s: string) {
    SpacesOnly(s) && NoWsRun(s) && Trimmed(s)
  }

  /** Drops the longest white-space prefix. */
  function TrimStart(s: string): (r: string)
    ensures |r| <= |s|
    ensures r == [] || !IsWs(r[0])
    ensures AllWs(s[..|s| - |r|])
  {
    if s != [] && IsWs(s[0]) then
      var r := TrimStart(s[1..]);
      assert s[..|s| - |r|] == [s[0]] + s[1..][..|s| - 1 - |r|];
      r
    else s
  }

  /** What `TrimStart` keeps is the end of the text, unchanged. */
  lemma {:induction false} TrimStartSuffix(s: string)
    ensures TrimStart(s) == s[|s| - |TrimStart(s)|..]
  {
    if s != [] && IsWs(s[0]) {
      TrimStartSuffix(s[1..]);
    }
  }

  /** Drops the longest white-space suffix. */
  function TrimEnd(s: string): (r: string)
    ensures |r| <= |s| && r == s[..|r|]
    ensures r == [] || !IsWs(r[|r| - 1])
    ensures AllWs(s[|r|..])
  {
    if s != [] && IsWs(s[|s| - 1]) then
      var r := TrimEnd(s[..|s| - 1]);
      assert s[|r|..] == s[..|s| - 1][|r|..] + [s[|s| - 1]];
      r
    else s
  }

  /** `String.prototype.trim`. */
  function Trim(s: string): (r: string)
    ensures Trimmed(r)
    ensures var t := TrimStart(s);
      && t == s[|s| - |t|..] && AllWs(s[..|s| - |t|])
      && |r| <= |t| && r == t[..|r|] && AllWs(t[|r|..])
  {
    TrimStartSuffix(s);
    TrimEnd(TrimStart(s))
  }

  /** The global replacement of `/\s+/` by a single space: each maximal run of
      white space becomes one ' ', everything else is copied. */
  function Collapse(s: string): (r: string)
    ensures |r| <= |s|
    ensures r == [] <==> s == []
    ensures s != [] ==> r[0] == (if IsWs(s[0]) then ' ' else s[0])
    decreases |s|
  {
    if s == [] then []
    else if IsWs(s[0]) then [' '] + Collapse(TrimStart(s[1..]))
    else [s[0]] + Collapse(s[1..])
  }

  /** The replacement ends in a space exactly when the text ends in white space,
      and otherwise in the text's own last character. */
  lemma {:induction false} CollapseLast(s: string)
    requires s != []
    ensures EndsLike(Collapse(s), s)
    decreases |s|
  {
    if IsWs(s[0]) {
      var t := TrimStart(s[1..]);
      if t == [] {
        CollapseLastBlank(s);
      } else {
        CollapseLast(t);
        CollapseLastAfterWs(s);
      }
    } else if |s| > 1 {
      CollapseLast(s[1..]);
      CollapseLastAfterChar(s);
    } else {
      assert Collapse(s) == [s[0]] + Collapse([]);
    }
  }

  /** `c` is non-empty and ends in a space where `s` ends in white space, and in
      the same character as `s` otherwise. */
  predicate EndsLike(c: string, s: string)
    requires s != []
  {
    c != [] && c[|c| - 1] == LastCollapsed(s[|s| - 1])
  }

  /** What the replacement turns a character into. */
  function LastCollapsed(x: char): char {
    if IsWs(x) then ' ' else x
  }

  lemma CollapseLastBlank(s: string)
    requires s != [] && IsWs(s[0]) && TrimStart(s[1..]) == []
    ensures EndsLike(Collapse(s), s)
  {
    assert Collapse(s) == [' '] by { assert Collapse(s) == [' '] + Collapse([]); }
    WsTailOfBlank(s);
  }

  lemma CollapseLastAfterWs(s: string)
    requires s != [] && IsWs(s[0])
    requires TrimStart(s[1..]) != [] && EndsLike(Collapse(TrimStart(s[1..])), TrimStart(s[1..]))
    ensures EndsLike(Collapse(s), s)
  {
    var t := TrimStart(s[1..]);
    var c := Collapse(t);
    assert Collapse(s) == [' '] + c;
    assert t[|t| - 1] == s[|s| - 1] by { TrimStartSuffix(s[1..]); }
    assert c[|c| - 1] == LastCollapsed(s[|s| - 1]);
    assert ([' '] + c)[|c|] == c[|c| - 1];
  }

  lemma CollapseLastAfterChar(s: string)
    requires |s| > 1 && !IsWs(s[0]) && EndsLike(Collapse(s[1..]), s[1..])
    ensures EndsLike(Collapse(s), s)
  {
    var c := Collapse(s[1..]);
    assert Collapse(s) == [s[0]] + c;
    assert s[1..][|s| - 2] == s[|s| - 1];
    assert c[|c| - 1] == LastCollapsed(s[|s| - 1]);
    assert ([s[0]] + c)[|c|] == c[|c| - 1];
  }

  /** Text that is white space after its first character ends in white space. */
  lemma WsTailOfBlank(s: string)
    requires s != [] && IsWs(s[0]) && TrimStart(s[1..]) == []
    ensures IsWs(s[|s| - 1])
  {
    if |s| > 1 {
      var u := s[1..];
      assert AllWs(u) by { assert u[..|u|] == u; }
      assert u[|u| - 1] == s[|s| - 1];
    }
  }

  /** `s` with every white-space character deleted. */
  function StripWs(s: string): (r: string)
    ensures |r| <= |s|
    ensures forall i :: 0 <= i < |r| ==> !IsWs(r[i])
  {
    if s == [] then []
    else if IsWs(s[0]) then StripWs(s[1..])
    else [s[0]] + StripWs(s[1..])
  }

  lemma {:induction false} StripWsAppend(a: string, b: string)
    ensures StripWs(a + b) == StripWs(a) + StripWs(b)
  {
    if a == [] {
      assert a + b == b;
    } else {
      assert (a + b)[1..] == a[1..] + b;
      StripWsAppend(a[1..], b);
    }
  }

  lemma {:induction false} StripWsEmptyIff(s: string)
    ensures StripWs(s) == [] <==> AllWs(s)
  {
    if s != [] {
      StripWsEmptyIff(s[1..]);
      assert AllWs(s) <==> IsWs(s[0]) && AllWs(s[1..]) by {
        if IsWs(s[0]) && AllWs(s[1..]) {
          forall i | 0 <= i < |s| ensures IsWs(s[i]) {
            if i > 0 { assert s[i] == s[1..][i - 1]; }
          }
        }
      }
    }
  }

  lemma {:induction false} StripWsTrimStart(s: string)
    ensures StripWs(TrimStart(s)) == StripWs(s)
  {
    if s != [] && IsWs(s[0]) {
      StripWsTrimStart(s[1..]);
    }
  }

  lemma StripWsTrimEnd(s: string)
    ensures StripWs(TrimEnd(s)) == StripWs(s)
  {
    var t := TrimEnd(s);
    assert s == t + s[|t|..];
    StripWsAppend(t, s[|t|..]);
    StripWsEmptyIff(s[|t|..]);
  }

  lemma {:induction false} StripWsCollapse(s: string)
    ensures StripWs(Collapse(s)) == StripWs(s)
    decreases |s|
  {
    if s == [] {
    } else if IsWs(s[0]) {
      var t := TrimStart(s[1..]);
      StripWsCollapse(t);
      StripWsAppend([' '], Collapse(t));
      StripWsTrimStart(s[1..]);
    } else {
      StripWsCollapse(s[1..]);
      StripWsAppend([s[0]], Collapse(s[1..]));
    }
  }

  lemma {:induction false} CollapseShape(s: string)
    ensures SpacesOnly(Collapse(s)) && NoWsRun(Collapse(s))
    decreases |s|
  {
    if s == [] {
    } else if IsWs(s[0]) {
      var t := TrimStart(s[1..]);
      CollapseShape(t);
      assert Collapse(s) == [' '] + Collapse(t);
      ShapeCons(' ', Collapse(t));
    } else {
      CollapseShape(s[1..]);
      assert Collapse(s) == [s[0]] + Collapse(s[1..]);
      ShapeCons(s[0], Collapse(s[1..]));
    }
  }

  /** A single space in front of text that does not start with white space, or
      any other character in front of anything, keeps the shape. */
  lemma ShapeCons(c: char, x: string)
    requires SpacesOnly(x) && NoWsRun(x)
    requires IsWs(c) ==> c == ' ' && (x == [] || !IsWs(x[0]))
    ensures SpacesOnly([c] + x) && NoWsRun([c] + x)
  {
    var r := [c] + x;
    forall i | 0 < i < |r| ensures r[i] == x[i - 1] { }
  }

  /** The normalised chat answer: `s.replace(/\s+/g, " ").trim()`. */
  function Normalize(s: string): (r: string)
    ensures Normal(r)
  {
    CollapseShape(s);
    TrimStartSuffix(Collapse(s));
    Trim(Collapse(s))
  }

  lemma NormalizeKeepsNonWs(s: string)
    ensures StripWs(Normalize(s)) == StripWs(s)
  {
    StripWsCollapse(s);
    StripWsTrimStart(Collapse(s));
    StripWsTrimEnd(TrimStart(Collapse(s)));
  }

  /** Copying is all `Collapse` does to a string already free of runs and of
      white space other than ' '. */
  lemma {:induction false} CollapseFixesShape(s: string)
    requires SpacesOnly(s) && NoWsRun(s)
    ensures Collapse(s) == s
    decreases |s|
  {
    if s == [] {
    } else if IsWs(s[0]) {
      assert s[1..] == [] || !IsWs(s[1..][0]);
      assert TrimStart(s[1..]) == s[1..];
      CollapseFixesShape(s[1..]);
    } else {
      CollapseFixesShape(s[1..]);
    }
  }

  lemma NormalizeFixesIff(s: string)
    ensures Normalize(s) == s <==> Normal(s)
  {
    if Normal(s) {
      CollapseFixesShape(s);
      assert TrimStart(s) == s;
      assert TrimEnd(s) == s;
    }
  }

  lemma NormalizeIdempotent(s: string)
    ensures Normalize(Normalize(s)) == Normalize(s)
  {
    NormalizeFixesIff(Normalize(s));
  }

  /** Normalisation yields the empty answer exactly when the input is all white space. */
  lemma NormalizeEmptyIff(s: string)
    ensures Normalize(s) == [] <==> AllWs(s)
  {
    var r := Normalize(s);
    NormalizeKeepsNonWs(s);
    StripWsEmptyIff(s);
    StripWsEmptyIff(r);
    if r != [] {
      assert !IsWs(r[0]);
    }
  }

  /** A word: a non-empty run of characters that are not white space. */
  predicate IsWord(w: string) {
    w != [] && forall i :: 0 <= i < |w| ==> !IsWs(w[i])
  }

  /** The longest prefix of `s` free of white space. */
  function TakeWord(s: string): (w: string)
    ensures |w| <= |s| && w == s[..|w|]
    ensures forall i :: 0 <= i < |w| ==> !IsWs(w[i])
    ensures |w| < |s| ==> IsWs(s[|w|])
  {
    if s != [] && !IsWs(s[0]) then [s[0]] + TakeWord(s[1..]) else []
  }

  /** The words of `s`, in order: a reference reading of the text that ignores how
      its words are separated. */
  function Words(s: string): (ws: seq<string>)
    decreases |s|
  {
    var t := TrimStart(s);
    if t == [] then []
    else
      var w := TakeWord(t);
      [w] + Words(t[|w|..])
  }

  /** The words separated by single spaces. */
  function Join(ws: seq<string>): string
  {
    if ws == [] then []
    else if |ws| == 1 then ws[0]
    else ws[0] + [' '] + Join(ws[1..])
  }

  lemma {:induction false} WordsAreWords(s: string)
    ensures forall k :: 0 <= k < |Words(s)| ==> IsWord(Words(s)[k])
    decreases |s|
  {
    var t := TrimStart(s);
    if t != [] {
      var w := TakeWord(t);
      WordsAreWords(t[|w|..]);
    }
  }

  lemma {:induction false} CollapseWordPrefix(w: string, rest: string)
    requires forall i :: 0 <= i < |w| ==> !IsWs(w[i])
    ensures Collapse(w + rest) == w + Collapse(rest)
  {
    if w != [] {
      assert (w + rest)[1..] == w[1..] + rest;
      CollapseWordPrefix(w[1..], rest);
    } else {
      assert w + rest == rest;
    }
  }

  /** Text that does not start with white space has nothing to trim at its start. */
  lemma TrimStartAtWord(s: string)
    requires s == [] || !IsWs(s[0])
    ensures TrimStart(s) == s
  {
  }

  lemma TrimStartCollapse(s: string)
    ensures TrimStart(Collapse(s)) == Collapse(TrimStart(s))
  {
    if s != [] && IsWs(s[0]) {
      var t := TrimStart(s[1..]);
      var c := Collapse(t);
      assert TrimStart(s) == t;
      assert Collapse(s) == [' '] + c;
      assert TrimStart([' '] + c) == TrimStart(c) by {
        assert ([' '] + c)[1..] == c;
      }
      TrimStartAtWord(c);
    } else {
      TrimStartAtWord(s);
      TrimStartAtWord(Collapse(s));
    }
  }

  lemma TrimEndAppend(a: string, b: string)
    requires TrimEnd(b) != []
    ensures TrimEnd(a + b) == a + TrimEnd(b)
    decreases |b|
  {
    if IsWs(b[|b| - 1]) {
      assert (a + b)[..|a + b| - 1] == a + b[..|b| - 1];
      TrimEndAppend(a, b[..|b| - 1]);
    }
  }

  lemma TrimStartIdempotent(s: string)
    ensures TrimStart(TrimStart(s)) == TrimStart(s)
  {
  }

  lemma WordsSkipWs(s: string)
    ensures Words(TrimStart(s)) == Words(s)
  {
    TrimStartIdempotent(s);
  }

  /** Unfolds `Words` once at the start of a word. */
  lemma WordsAtWord(t: string)
    requires t != [] && !IsWs(t[0])
    ensures Words(t) == [TakeWord(t)] + Words(t[|TakeWord(t)|..])
  {
    assert TrimStart(t) == t;
  }

  /** Unfolds `Collapse` once at the start of a white-space run. */
  lemma CollapseAtWs(s: string)
    requires s != [] && IsWs(s[0])
    ensures Collapse(s) == [' '] + Collapse(TrimStart(s))
  {
    assert TrimStart(s) == TrimStart(s[1..]);
  }

  lemma JoinCons(w: string, ws: seq<string>)
    requires ws != []
    ensures Join([w] + ws) == w + [' '] + Join(ws)
  {
    assert ([w] + ws)[1..] == ws;
  }

  lemma {:induction false} TrimEndWord(w: string, extra: string)
    requires IsWord(w) && AllWs(extra)
    ensures TrimEnd(w + extra) == w
    decreases |extra|
  {
    if extra == [] {
      assert w + extra == w;
    } else {
      var e := extra[..|extra| - 1];
      assert (w + extra)[..|w + extra| - 1] == w + e;
      TrimEndWord(w, e);
    }
  }

  /** One step of `TrimEndCollapseIsJoin`: a word, a space, then collapsed text
      that starts with a word. */
  lemma JoinAfterWord(w: string, r: string)
    requires IsWord(w) && r != [] && !IsWs(r[0])
    requires TrimEnd(Collapse(r)) == Join(Words(r))
    ensures TrimEnd((w + [' ']) + Collapse(r)) == Join([w] + Words(r))
  {
    var c := Collapse(r);
    assert TrimEnd(c) != [] by {
      assert c[0] == r[0];
      assert c[0..] == c;
    }
    TrimEndAppend(w + [' '], c);
    assert Words(r) != [] by { WordsAtWord(r); }
    JoinCons(w, Words(r));
  }

  lemma ConcatAssoc(a: string, b: string, c: string)
    ensures a + (b + c) == (a + b) + c
  {
  }

  lemma JoinLastWord(w: string, rest: string)
    requires IsWord(w) && AllWs(rest)
    ensures TrimEnd(w + Collapse(rest)) == Join([w] + Words(rest))
  {
    TrimStartSuffix(rest);
    assert TrimStart(rest) == [];
    assert Words(rest) == [];
    assert [w] + Words(rest) == [w];
    if rest == [] {
      TrimEndWord(w, []);
      assert w + [] == w;
    } else {
      CollapseAtWs(rest);
      assert Collapse(rest) == [' '];
      TrimEndWord(w, [' ']);
    }
  }

  /** The inductive step of `TrimEndCollapseIsJoin`, for text made of the word `w`
      followed by `rest`. */
  lemma JoinAfterFirstWord(w: string, rest: string)
    requires IsWord(w) && (rest == [] || IsWs(rest[0]))
    requires TrimStart(rest) != [] ==>
      TrimEnd(Collapse(TrimStart(rest))) == Join(Words(TrimStart(rest)))
    ensures TrimEnd(w + Collapse(rest)) == Join([w] + Words(rest))
  {
    var r2 := TrimStart(rest);
    if r2 == [] {
      assert AllWs(rest) by { assert rest[..|rest|] == rest; }
      JoinLastWord(w, rest);
    } else {
      WordsSkipWs(rest);
      CollapseAtWs(rest);
      ConcatAssoc(w, [' '], Collapse(r2));
      JoinAfterWord(w, r2);
    }
  }

  /** For text starting at a word (or empty), trimming the end of its collapsed
      form leaves exactly its words joined by single spaces. */
  lemma {:induction false} TrimEndCollapseIsJoin(t: string)
    requires t == [] || !IsWs(t[0])
    ensures TrimEnd(Collapse(t)) == Join(Words(t))
    decreases |t|
  {
    if t != [] {
      var w := TakeWord(t);
      var rest := t[|w|..];
      WordsAtWord(t);
      assert t == w + rest;
      CollapseWordPrefix(w, rest);
      if TrimStart(rest) != [] {
        TrimEndCollapseIsJoin(TrimStart(rest));
      }
      JoinAfterFirstWord(w, rest);
    }
  }

  /** Normalisation is the reference reading: the words of the input, in order,
      separated by single spaces. */
  lemma NormalizeIsJoinOfWords(s: string)
    ensures Normalize(s) == Join(Words(s))
  {
    TrimStartCollapse(s);
    var t := TrimStart(s);
    TrimEndCollapseIsJoin(t);
    assert TrimStart(t) == t;
    assert Words(t) == Words(s);
  }

  /** The replacement on its own, read through the reference: the words joined
      by single spaces, with one space in front when the text starts with white
      space and one behind when white space follows its last word. */
  lemma CollapseIsJoinOfWords(s: string)
    ensures Collapse(s) == Lead(s) + Join(Words(s)) + Trail(s)
  {
    var c := Collapse(TrimStart(s));
    assert Collapse(s) == Lead(s) + c by {
      if s != [] && IsWs(s[0]) { CollapseAtWs(s); } else { TrimStartAtWord(s); }
    }
    assert c == Join(Words(s)) + Trail(s) by { CollapseAfterLead(s); }
    ConcatAssoc(Lead(s), Join(Words(s)), Trail(s));
  }

  /** Past its leading white space, a text collapses to its words joined by single
      spaces and the trailing space, if any. */
  lemma CollapseAfterLead(s: string)
    ensures Collapse(TrimStart(s)) == Join(Words(s)) + Trail(s)
  {
    var t := TrimStart(s);
    if t == [] {
      assert Words(s) == [];
    } else {
      assert Words(s) != [] && Words(t) == Words(s) by { WordsSkipWs(s); }
      assert t[|t| - 1] == s[|s| - 1] by { TrimStartSuffix(s); }
      CollapseTail(t);
    }
  }

  /** For text starting at a word: its collapsed form is its words joined by single
      spaces, plus one space when it ends in white space. */
  lemma CollapseTail(t: string)
    requires t != [] && !IsWs(t[0])
    ensures Collapse(t) == Join(Words(t)) + (if IsWs(t[|t| - 1]) then " " else "")
  {
    var c := Collapse(t);
    assert EndsLike(c, t) by { CollapseLast(t); }
    assert c == TrimEnd(c) + (if IsWs(c[|c| - 1]) then " " else "") by {
      CollapseShape(t);
      TrimEndSingle(c);
    }
    assert TrimEnd(c) == Join(Words(t)) by { TrimEndCollapseIsJoin(t); }
  }

  /** One space, when the text starts with white space. */
  function Lead(s: string): string {
    if s != [] && IsWs(s[0]) then " " else ""
  }

  /** One space, when white space follows the last word of the text. */
  function Trail(s: string): string {
    if Words(s) != [] && IsWs(s[|s| - 1]) then " " else ""
  }

  /** Text without runs whose only white space is ' ' ends in at most one space,
      which is all `TrimEnd` removes. */
  lemma TrimEndSingle(x: string)
    requires SpacesOnly(x) && NoWsRun(x)
    ensures x == TrimEnd(x) + (if x != [] && IsWs(x[|x| - 1]) then " " else "")
  {
    if x != [] && IsWs(x[|x| - 1]) {
      var y := x[..|x| - 1];
      assert y == [] || !IsWs(y[|y| - 1]) by {
        if y != [] { assert y[|y| - 1] == x[|x| - 2]; }
      }
      assert TrimEnd(x) == TrimEnd(y);
      assert TrimEnd(y) == y;
      assert x == y + [x[|x| - 1]];
    } else {
      assert TrimEnd(x) == x;
    }
  }


  /** Splitting well-formed words joined by spaces gives back the words. */
  lemma {:induction false} WordsOfJoin(ws: seq<string>)
    requires forall k :: 0 <= k < |ws| ==> IsWord(ws[k])
    ensures Words(Join(ws)) == ws
    decreases |ws|
  {
    if |ws| == 1 {
      WordsOfOneWord(ws);
    } else if |ws| > 1 {
      var rest := ws[1..];
      assert forall k :: 0 <= k < |rest| ==> rest[k] == ws[k + 1];
      WordsOfJoin(rest);
      WordsOfJoinCons(ws);
    }
  }

  lemma WordsOfOneWord(ws: seq<string>)
    requires |ws| == 1 && IsWord(ws[0])
    ensures Words(Join(ws)) == ws
  {
    var w := ws[0];
    assert Join(ws) == w;
    WordsOfWord(w);
    assert ws == [w];
  }

  lemma WordsOfWord(w: string)
    requires IsWord(w)
    ensures Words(w) == [w]
  {
    WordsOfWordThen(w, []);
    assert w + [] == w;
    assert Words([]) == [];
  }

  /** One more word in front of a join that splits back correctly. */
  lemma WordsOfJoinCons(ws: seq<string>)
    requires |ws| > 1 && IsWord(ws[0])
    requires Words(Join(ws[1..])) == ws[1..]
    ensures Words(Join(ws)) == ws
  {
    var w, rest := ws[0], ws[1..];
    var spaced := [' '] + Join(rest);
    assert Join(ws) == w + spaced by { JoinStep(ws); }
    assert Words(spaced) == rest by { WordsAfterSpace(Join(rest)); }
    assert Words(w + spaced) == [w] + Words(spaced) by { WordsOfWordThen(w, spaced); }
    assert ws == [w] + rest;
  }

  lemma JoinStep(ws: seq<string>)
    requires |ws| > 1
    ensures Join(ws) == ws[0] + ([' '] + Join(ws[1..]))
  {
  }

  lemma WordsAfterSpace(t: string)
    ensures Words([' '] + t) == Words(t)
  {
    assert ([' '] + t)[1..] == t;
    WordsSkipWs([' '] + t);
    WordsSkipWs(t);
  }

  /** A word followed by text that is empty or starts with white space is read
      as that word and then the words of the text. */
  lemma WordsOfWordThen(w: string, rest: string)
    requires IsWord(w) && (rest == [] || IsWs(rest[0]))
    ensures Words(w + rest) == [w] + Words(rest)
  {
    var j := w + rest;
    TakeWordOfWord(w, rest);
    WordsAtWord(j);
    assert j[|w|..] == rest;
  }

  lemma {:induction false} TakeWordOfWord(w: string, rest: string)
    requires forall i :: 0 <= i < |w| ==> !IsWs(w[i])
    requires rest == [] || IsWs(rest[0])
    ensures TakeWord(w + rest) == w
  {
    if w != [] {
      assert (w + rest)[1..] == w[1..] + rest;
      TakeWordOfWord(w[1..], rest);
    } else {
      assert w + rest == rest;
    }
  }

  /** Normalisation keeps every word of the answer, in order. */
  lemma NormalizeKeepsWords(s: string)
    ensures Words(Normalize(s)) == Words(s)
  {
    NormalizeIsJoinOfWords(s);
    WordsAreWords(s);
    WordsOfJoin(Words(s));
  }

  lemma WordIsNormal(w: string)
    requires IsWord(w)
    ensures Normal(w)
  {
  }

  /** Two normal texts joined by one space form a normal text. */
  lemma NormalSpaceJoin(a: string, b: string)
    requires Normal(a) && Normal(b) && a != [] && b != []
    ensures Normal(a + [' '] + b)
  {
    var r := a + [' '] + b;
    forall i | 0 <= i < |r| - 1 ensures !(IsWs(r[i]) && IsWs(r[i + 1])) {
      if i < |a| - 1 {
        assert r[i] == a[i] && r[i + 1] == a[i + 1];
      } else if i == |a| - 1 {
        assert r[i] == a[|a| - 1];
      } else if i == |a| {
        assert r[i + 1] == b[0];
      } else {
        assert r[i] == b[i - |a| - 1] && r[i + 1] == b[i - |a|];
      }
    }
    forall i | 0 <= i < |r| && IsWs(r[i]) ensures r[i] == ' ' {
      if i < |a| {
        assert r[i] == a[i];
      } else if i > |a| {
        assert r[i] == b[i - |a| - 1];
      }
    }
  }

  /** A normal text followed by a space and one more word is still normal. */
  lemma NormalAddWord(a: string, w: string)
    requires Normal(a) && a != [] && IsWord(w)
    ensures Normal(a + " " + w)
  {
    WordIsNormal(w);
    NormalSpaceJoin(a, w);
  }

  /** Words joined by single spaces are in normal form. */
  lemma {:induction false} JoinIsNormal(ws: seq<string>)
    requires forall k :: 0 <= k < |ws| ==> IsWord(ws[k])
    ensures Normal(Join(ws))
    ensures ws != [] ==> Join(ws) != []
    decreases |ws|
  {
    if |ws| == 1 {
      WordIsNormal(ws[0]);
    } else if |ws| > 1 {
      JoinIsNormal(ws[1..]);
      WordIsNormal(ws[0]);
      NormalSpaceJoin(ws[0], Join(ws[1..]));
    }
  }
}
