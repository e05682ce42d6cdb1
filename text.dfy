/** Whitespace handling of Python's `str.strip()` and `str.split()` (no
    arguments), and the line selection done by `grep "^ Excited State "`. */
module Text {

  /** The characters Python's `str.isspace()` accepts; `strip()` and `split()`
      with no argument use exactly this set. */
  predicate IsSpace(c: char)
  {
    || ('\t' <= c <= '\r')
    || ('\U{1C}' <= c <= '\U{1F}')
    || c == ' ' || c == '\U{85}' || c == '\U{A0}' || c == '\U{1680}'
    || ('\U{2000}' <= c <= '\U{200A}')
    || c == '\U{2028}' || c == '\U{2029}' || c == '\U{202F}' || c == '\U{205F}'
    || c == '\U{3000}'
  }

  predicate AllSpace(s: string)
  {
    forall i :: 0 <= i < |s| ==> IsSpace(s[i])
  }

  predicate NoSpace(s: string)
  {
    forall i :: 0 <= i < |s| ==> !IsSpace(s[i])
  }

  /** A string of printable ASCII characters other than the blank has no whitespace. */
  lemma PrintableNoSpace(s: string)
    requires forall i :: 0 <= i < |s| ==> '!' <= s[i] <= '~'
    ensures NoSpace(s)
  {
  }

  /** `s.lstrip()`: drops the leading whitespace. */
  function TrimLeft(s: string): (r: string)
    ensures |r| <= |s| && r == s[|s| - |r|..]
    ensures AllSpace(s[..|s| - |r|])
    ensures r == [] || !IsSpace(r[0])
  {
    if s == [] || !IsSpace(s[0]) then s else TrimLeft(s[1..])
  }

  /** `s.rstrip()`: drops the trailing whitespace. */
  function TrimRight(s: string): (r: string)
    ensures |r| <= |s| && r == s[..|r|]
    ensures AllSpace(s[|r|..])
    ensures r == [] || !IsSpace(r[|r| - 1])
  {
    if s == [] || !IsSpace(s[|s| - 1]) then s
    else
      var r := TrimRight(s[..|s| - 1]);
      assert s[|r|..] == s[..|s| - 1][|r|..] + [s[|s| - 1]];
      r
  }

  /** `s.strip()`. */
  function Strip(s: string): string
  {
    TrimRight(TrimLeft(s))
  }

  /** Length of the longest whitespace-free prefix of `s`. */
  function TokenLen(s: string): (n: nat)
    ensures n <= |s|
    ensures NoSpace(s[..n])
    ensures n < |s| ==> IsSpace(s[n])
  {
    if s == [] || IsSpace(s[0]) then 0 else 1 + TokenLen(s[1..])
  }

  /** `s.split()`: the maximal runs of non-whitespace characters, in order. */
  function Split(s: string): (toks: seq<string>)
    ensures forall k :: 0 <= k < |toks| ==> toks[k] != [] && NoSpace(toks[k])
    decreases |s|
  {
    if s == [] then []
    else if IsSpace(s[0]) then Split(s[1..])
    else
      var n := TokenLen(s);
      [s[..n]] + Split(s[n..])
  }

  /** One table row of `clean_data`: `line.strip().split()`. */
  function Tokenize(line: string): seq<string>
  {
    Split(Strip(line))
  }

  /** The tokens written one after the other. */
  function Concat(toks: seq<string>): string
  {
    if toks == [] then [] else toks[0] + Concat(toks[1..])
  }

  /** `s` with every whitespace character removed. */
  function RemoveSpaces(s: string): string
  {
    if s == [] then []
    else (if IsSpace(s[0]) then [] else [s[0]]) + RemoveSpaces(s[1..])
  }

  /** The tokens joined with `sep` between consecutive tokens. */
  function JoinWith(toks: seq<string>, sep: string): string
  {
    if toks == [] then []
    else if |toks| == 1 then toks[0]
    else toks[0] + sep + JoinWith(toks[1..], sep)
  }

  lemma {:induction false} RemoveSpacesAppend(a: string, b: string)
    ensures RemoveSpaces(a + b) == RemoveSpaces(a) + RemoveSpaces(b)
    decreases |a|
  {
    if a == [] {
      assert a + b == b;
    } else {
      assert (a + b)[1..] == a[1..] + b;
      RemoveSpacesAppend(a[1..], b);
    }
  }

  lemma {:induction false} RemoveSpacesOfToken(t: string)
    requires NoSpace(t)
    ensures RemoveSpaces(t) == t
    decreases |t|
  {
    if t != [] {
      RemoveSpacesOfToken(t[1..]);
    }
  }

  /** The tokens, written one after the other, are the line with its
      whitespace removed: splitting loses nothing but whitespace. */
  lemma {:induction false} SplitConcat(s: string)
    ensures Concat(Split(s)) == RemoveSpaces(s)
    decreases |s|
  {
    if s == [] {
    } else if IsSpace(s[0]) {
      SplitConcat(s[1..]);
    } else {
      var n := TokenLen(s);
      assert s == s[..n] + s[n..];
      SplitConcat(s[n..]);
      RemoveSpacesAppend(s[..n], s[n..]);
      RemoveSpacesOfToken(s[..n]);
      assert ([s[..n]] + Split(s[n..]))[1..] == Split(s[n..]);
    }
  }

  /** Leading whitespace does not change the tokens. */
  lemma {:induction false} SplitSkipsLeading(w: string, s: string)
    requires AllSpace(w)
    ensures Split(w + s) == Split(s)
    decreases |w|
  {
    if w != [] {
      assert (w + s)[1..] == w[1..] + s;
      SplitSkipsLeading(w[1..], s);
    } else {
      assert w + s == s;
    }
  }

  /** Trailing whitespace does not change the tokens. */
  lemma {:induction false} SplitSkipsTrailing(s: string, w: string)
    requires AllSpace(w)
    ensures Split(s + w) == Split(s)
    decreases |s|, 1
  {
    if s == [] {
      assert s + w == w;
      SplitSkipsLeading(w, []);
      assert w + [] == w;
    } else if IsSpace(s[0]) {
      assert (s + w)[1..] == s[1..] + w;
      SplitSkipsTrailing(s[1..], w);
    } else {
      SplitSkipsTrailingAfterToken(s, w);
    }
  }

  /** SplitSkipsTrailing when `s` starts with a token. */
  lemma {:induction false} SplitSkipsTrailingAfterToken(s: string, w: string)
    requires AllSpace(w) && s != [] && !IsSpace(s[0])
    ensures Split(s + w) == Split(s)
    decreases |s|, 0
  {
    var n := TokenLen(s);
    var rest := s[n..];
    TokenOfPrefix(s[..n], rest + w);
    assert s + w == s[..n] + (rest + w);
    if n < |s| {
      SplitSkipsTrailing(rest, w);
    } else {
      assert rest + w == w;
      SplitSkipsLeading(w, []);
      assert w + [] == w;
      assert rest == [];
    }
  }

  lemma {:induction false} TokenLenOfPrefix(t: string, rest: string)
    requires NoSpace(t)
    requires rest == [] || IsSpace(rest[0])
    ensures TokenLen(t + rest) == |t|
    decreases |t|
  {
    if t == [] {
      assert t + rest == rest;
    } else {
      assert (t + rest)[1..] == t[1..] + rest;
      TokenLenOfPrefix(t[1..], rest);
    }
  }

  /** A whitespace-free run followed by whitespace (or the end) is one token. */
  lemma TokenOfPrefix(t: string, rest: string)
    requires t != [] && NoSpace(t)
    requires rest == [] || IsSpace(rest[0])
    ensures Split(t + rest) == [t] + Split(rest)
  {
    var s := t + rest;
    TokenLenOfPrefix(t, rest);
    assert s[..|t|] == t && s[|t|..] == rest;
  }

  lemma SplitTrimLeft(s: string)
    ensures Split(TrimLeft(s)) == Split(s)
  {
    var l := TrimLeft(s);
    var w := s[..|s| - |l|];
    assert s == w + l;
    SplitSkipsLeading(w, l);
  }

  lemma SplitTrimRight(s: string)
    ensures Split(TrimRight(s)) == Split(s)
  {
    var r := TrimRight(s);
    var w := s[|r|..];
    assert s == r + w;
    SplitSkipsTrailing(r, w);
  }

  /** `strip()` before `split()` changes nothing. */
  lemma StripThenSplit(s: string)
    ensures Tokenize(s) == Split(s)
  {
    SplitTrimLeft(s);
    SplitTrimRight(TrimLeft(s));
  }

  /** Splitting undoes joining with a non-empty whitespace separator. */
  lemma {:induction false} SplitJoin(toks: seq<string>, sep: string)
    requires sep != [] && AllSpace(sep)
    requires forall k :: 0 <= k < |toks| ==> toks[k] != [] && NoSpace(toks[k])
    ensures Split(JoinWith(toks, sep)) == toks
    decreases |toks|
  {
    if toks == [] {
    } else if |toks| == 1 {
      TokenOfPrefix(toks[0], []);
      assert toks[0] + [] == toks[0];
    } else {
      var rest := JoinWith(toks[1..], sep);
      assert toks[0] + sep + rest == toks[0] + (sep + rest);
      TokenOfPrefix(toks[0], sep + rest);
      SplitSkipsLeading(sep, rest);
      SplitJoin(toks[1..], sep);
    }
  }

  /** Each token preceded by its own separator. */
  function Interleave(seps: seq<string>, toks: seq<string>): string
    requires |seps| == |toks|
  {
    if toks == [] then [] else seps[0] + (toks[0] + Interleave(seps[1..], toks[1..]))
  }

  /** Splitting recovers the tokens, whatever non-empty whitespace runs
      stand between them. */
  lemma {:induction false} SplitInterleave(seps: seq<string>, toks: seq<string>)
    requires |seps| == |toks|
    requires forall k :: 0 <= k < |seps| ==> seps[k] != [] && AllSpace(seps[k])
    requires forall k :: 0 <= k < |toks| ==> toks[k] != [] && NoSpace(toks[k])
    ensures Split(Interleave(seps, toks)) == toks
    decreases |toks|
  {
    if toks != [] {
      var rest := Interleave(seps[1..], toks[1..]);
      if toks[1..] != [] {
        assert rest == seps[1] + (toks[1] + Interleave(seps[2..], toks[2..]));
        assert rest[0] == seps[1][0];
      }
      SplitSkipsLeading(seps[0], toks[0] + rest);
      TokenOfPrefix(toks[0], rest);
      SplitInterleave(seps[1..], toks[1..]);
    }
  }

  /** The pattern `^ Excited State ` of `grep_excited`. */
  const ExcitedPrefix: string := " Excited State "

  predicate IsExcitedLine(line: string)
  {
    |ExcitedPrefix| <= |line| && line[..|ExcitedPrefix|] == ExcitedPrefix
  }

  /** The lines `grep "^ Excited State "` prints, in order. */
  function GrepExcited(lines: seq<string>): (r: seq<string>)
    ensures forall k :: 0 <= k < |r| ==> IsExcitedLine(r[k])
    ensures |r| <= |lines|
  {
    if lines == [] then []
    else (if IsExcitedLine(lines[0]) then [lines[0]] else []) + GrepExcited(lines[1..])
  }

  /** A line is printed exactly when it is in the input and matches. */
  lemma {:induction false} GrepExcitedExact(lines: seq<string>, line: string)
    ensures line in GrepExcited(lines) <==> line in lines && IsExcitedLine(line)
  {
    if lines != [] {
      GrepExcitedExact(lines[1..], line);
      assert lines == [lines[0]] + lines[1..];
    }
  }

  /** GrepExcited works line by line: it distributes over concatenation. */
  lemma {:induction false} GrepExcitedAppend(a: seq<string>, b: seq<string>)
    ensures GrepExcited(a + b) == GrepExcited(a) + GrepExcited(b)
    decreases |a|
  {
    if a == [] {
      assert a + b == b;
    } else {
      assert (a + b)[1..] == a[1..] + b;
      GrepExcitedAppend(a[1..], b);
    }
  }

  /** A space, a word, then whitespace or the end: the word is the next token. */
  lemma SplitSpacedWord(t: string, rest: string)
    requires t != [] && NoSpace(t)
    requires rest == [] || IsSpace(rest[0])
    ensures Split(" " + (t + rest)) == [t] + Split(rest)
  {
    SplitSkipsLeading(" ", t + rest);
    TokenOfPrefix(t, rest);
  }

  lemma ExcitedLineShape(line: string)
    requires IsExcitedLine(line)
    ensures line == " " + ("Excited" + (" " + ("State" + line[|ExcitedPrefix| - 1..])))
    ensures line[|ExcitedPrefix| - 1] == ' '
  {
    assert line == line[..|ExcitedPrefix|] + line[|ExcitedPrefix|..];
  }

  lemma HeaderWordsHaveNoSpace()
    ensures NoSpace("Excited") && NoSpace("State")
  {
  }

  lemma SplitExcitedLine(line: string)
    requires IsExcitedLine(line)
    ensures Split(line) == ["Excited", "State"] + Split(line[|ExcitedPrefix| - 1..])
  {
    var afterState := line[|ExcitedPrefix| - 1..];
    var afterExcited := " " + ("State" + afterState);
    ExcitedLineShape(line);
    HeaderWordsHaveNoSpace();
    SplitSpacedWord("Excited", afterExcited);
    SplitSpacedWord("State", afterState);
    assert ["Excited"] + (["State"] + Split(afterState)) == ["Excited", "State"] + Split(afterState);
  }

  /** A selected line's first two tokens are `Excited` and `State`, so the
      state number is the third token. */
  lemma SelectedLineTokens(line: string)
    requires IsExcitedLine(line)
    ensures |Tokenize(line)| >= 2
    ensures Tokenize(line)[0] == "Excited" && Tokenize(line)[1] == "State"
  {
    StripThenSplit(line);
    SplitExcitedLine(line);
  }
}
