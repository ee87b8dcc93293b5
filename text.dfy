/**
 * String helpers shared by the question diagnostics and the format builder:
 * the ASCII behaviour of JavaScript's `trim`, `toLowerCase`, `replace(/\s+/g, " ")`,
 * `split(/\s+/)`, and decimal rendering of integers as template literals do it.
 */
module Text {

  /** The ASCII characters that `\s` matches and `trim` strips:
      space, tab, line feed, vertical tab, form feed and carriage return. */
  predicate IsSpace(c: char) {
    c == ' ' || c == '\t' || c == '\n' || c == '\r' || c == 11 as char || c == 12 as char
  }

  predicate IsUpper(c: char) { 'A' <= c <= 'Z' }

  predicate IsLower(c: char) { 'a' <= c <= 'z' }

  predicate IsDigit(c: char) { '0' <= c <= '9' }

  /** True when no character of `s` is whitespace. */
  predicate NoSpaces(s: string) {
    forall i :: 0 <= i < |s| ==> !IsSpace(s[i])
  }

  predicate NoUpper(s: string) {
    forall i :: 0 <= i < |s| ==> !IsUpper(s[i])
  }

  /** True when every character of `s` is whitespace (the empty string included). */
  predicate AllSpaces(s: string) {
    forall i :: 0 <= i < |s| ==> IsSpace(s[i])
  }

  // ---------------------------------------------------------------------------
  // Lower-casing
  // ---------------------------------------------------------------------------

  /** `toLowerCase` on one ASCII character. */
  function LowerChar(c: char): (r: char)
    ensures !IsUpper(r)
    ensures IsUpper(c) ==> IsLower(r)
    ensures IsUpper(c) ==> r as int - 'a' as int == c as int - 'A' as int
    ensures !IsUpper(c) ==> r == c
    ensures IsSpace(r) <==> IsSpace(c)
  {
    if IsUpper(c) then (c as int + 32) as char else c
  }

  function Lower(s: string): (r: string)
    ensures |r| == |s|
    ensures forall i :: 0 <= i < |s| ==> r[i] == LowerChar(s[i])
  {
    seq(|s|, i requires 0 <= i < |s| => LowerChar(s[i]))
  }

  /** Lower-casing leaves no upper-case letter and keeps whitespace where it was. */
  lemma LowerKeepsEnds(s: string)
    ensures NoUpper(Lower(s))
    ensures s != [] ==> (IsSpace(Lower(s)[0]) <==> IsSpace(s[0]))
    ensures s != [] ==> (IsSpace(Lower(s)[|s| - 1]) <==> IsSpace(s[|s| - 1]))
  {
  }

  // ---------------------------------------------------------------------------
  // Trimming
  // ---------------------------------------------------------------------------

  /** Drops the leading whitespace: the result is the suffix of `s` that starts
      at its first non-whitespace character. */
  function TrimStart(s: string): (r: string)
    ensures |r| <= |s| && r == s[|s| - |r|..]
    ensures r == [] || !IsSpace(r[0])
    ensures AllSpaces(s[..|s| - |r|])
    decreases |s|
  {
    if |s| > 0 && IsSpace(s[0]) then TrimStart(s[1..]) else s
  }

  /** Drops the trailing whitespace: the result is the prefix of `s` that ends
      at its last non-whitespace character. */
  function TrimEnd(s: string): (r: string)
    ensures |r| <= |s| && r == s[..|r|]
    ensures r == [] || !IsSpace(r[|r| - 1])
    ensures AllSpaces(s[|r|..])
    decreases |s|
  {
    if |s| > 0 && IsSpace(s[|s| - 1]) then
      var init := s[..|s| - 1];
      var r := TrimEnd(init);
      assert init[..|r|] == s[..|r|];
      assert s[|r|..] == init[|r|..] + [s[|s| - 1]];
      r
    else s
  }

  lemma AllSpacesConcat(a: string, b: string)
    requires AllSpaces(a) && AllSpaces(b)
    ensures AllSpaces(a + b)
  {
    forall i | 0 <= i < |a + b| ensures IsSpace((a + b)[i]) {
      if i < |a| {
        assert (a + b)[i] == a[i];
      } else {
        assert (a + b)[i] == b[i - |a|];
      }
    }
  }

  /** True when `s` has no whitespace at either end. */
  predicate Unpadded(s: string) {
    s == [] || (!IsSpace(s[0]) && !IsSpace(s[|s| - 1]))
  }

  /** `s[..a]` and `s[b..]` are whitespace. */
  predicate Margins(s: string, a: int, b: int) {
    0 <= a <= b <= |s| && AllSpaces(s[..a]) && AllSpaces(s[b..])
  }

  /** `String.prototype.trim`: the piece of `s` left between its leading and its
      trailing whitespace. */
  function Trim(s: string): (r: string)
    ensures |r| <= |s|
    ensures r == [] || (!IsSpace(r[0]) && !IsSpace(r[|r| - 1]))
    ensures r == [] <==> AllSpaces(s)
    ensures exists a, b {:trigger Margins(s, a, b)} :: Margins(s, a, b) && r == s[a..b]
  {
    var t := TrimStart(s);
    var r := TrimEnd(t);
    TrimBlank(s, t, r);
    TrimSlice(s, t, r);
    r
  }

  /** The two trimming steps cut `s` into whitespace, the result, and whitespace. */
  lemma {:induction false} TrimSlice(s: string, t: string, r: string)
    requires t == TrimStart(s) && r == TrimEnd(t)
    ensures exists a, b {:trigger Margins(s, a, b)} :: Margins(s, a, b) && r == s[a..b]
  {
    CutMargins(s, t, r);
  }

  /** A suffix after whitespace, cut again before whitespace, is a slice between margins. */
  lemma CutMargins(s: string, t: string, r: string)
    requires |t| <= |s| && t == s[|s| - |t|..] && AllSpaces(s[..|s| - |t|])
    requires |r| <= |t| && r == t[..|r|] && AllSpaces(t[|r|..])
    ensures Margins(s, |s| - |t|, |s| - |t| + |r|) && r == s[|s| - |t|..|s| - |t| + |r|]
  {
    var a := |s| - |t|;
    assert t[|r|..] == s[a + |r|..];
  }

  /** Leading whitespace is skipped. */
  lemma {:induction false} TrimStartSkips(spaces: string, value: string)
    requires AllSpaces(spaces)
    ensures TrimStart(spaces + value) == TrimStart(value)
    decreases |spaces|
  {
    if spaces == [] {
      assert spaces + value == value;
    } else {
      assert (spaces + value)[1..] == spaces[1..] + value;
      TrimStartSkips(spaces[1..], value);
    }
  }

  /** Trailing whitespace is dropped. */
  lemma {:induction false} TrimEndSkips(value: string, spaces: string)
    requires AllSpaces(spaces)
    ensures TrimEnd(value + spaces) == TrimEnd(value)
    decreases |spaces|
  {
    if spaces == [] {
      assert value + spaces == value;
    } else {
      var init := spaces[..|spaces| - 1];
      assert (value + spaces)[..|value + spaces| - 1] == value + init;
      TrimEndSkips(value, init);
    }
  }

  /** Trimming is determined by the cut: whatever sits between whitespace at both
      ends, with no whitespace at its own ends, is the trim. */
  lemma TrimUnique(p: string, m: string, q: string)
    requires AllSpaces(p) && AllSpaces(q) && Unpadded(m)
    ensures Trim(p + m + q) == m
  {
    if m == [] {
      assert p + m + q == p + q;
      AllSpacesConcat(p, q);
    } else {
      assert p + m + q == p + (m + q);
      TrimStartSkips(p, m + q);
      assert TrimStart(m + q) == m + q;
      TrimEndSkips(m, q);
      assert TrimEnd(m) == m;
    }
  }

  /** The two trimming steps leave nothing exactly when the string is blank. */
  lemma TrimBlank(s: string, t: string, r: string)
    requires t == TrimStart(s) && r == TrimEnd(t)
    ensures r == [] || r[0] == t[0]
    ensures r == [] <==> AllSpaces(s)
  {
    if r == [] {
      BlankWhenNothingLeft(s, t);
    } else {
      var k := |s| - |t|;
      assert r[0] == t[0] == s[k];
    }
  }

  lemma BlankWhenNothingLeft(s: string, t: string)
    requires |t| <= |s| && t == s[|s| - |t|..] && AllSpaces(s[..|s| - |t|]) && AllSpaces(t)
    ensures AllSpaces(s)
  {
    var k := |s| - |t|;
    assert s == s[..k] + t;
    AllSpacesConcat(s[..k], t);
  }

  /** A string with nothing to trim is its own trim. */
  lemma TrimUntrimmed(s: string)
    requires s == [] || (!IsSpace(s[0]) && !IsSpace(s[|s| - 1]))
    ensures Trim(s) == s
  {
  }

  // ---------------------------------------------------------------------------
  // Whitespace collapsing and the normalised comparison key
  // ---------------------------------------------------------------------------

  /** True when the only whitespace in `s` is single spaces: no tab or other
      whitespace character, and never two whitespace characters in a row. */
  ghost predicate SingleSpaced(s: string) {
    && (forall i :: 0 <= i < |s| && IsSpace(s[i]) ==> s[i] == ' ')
    && (forall i, j :: 0 <= i < j < |s| && j == i + 1 ==> !(IsSpace(s[i]) && IsSpace(s[j])))
  }

  /** Putting one character in front of a single-spaced string keeps it single-spaced,
      provided that a whitespace character is a space followed by a non-space. */
  lemma SingleSpacedCons(x: char, c: string)
    requires SingleSpaced(c)
    requires IsSpace(x) ==> x == ' ' && (c == [] || !IsSpace(c[0]))
    ensures SingleSpaced([x] + c)
  {
    var r := [x] + c;
    forall i, j | 0 <= i < j < |r| && j == i + 1 ensures !(IsSpace(r[i]) && IsSpace(r[j])) {
      if i > 0 { assert r[i] == c[i - 1] && r[j] == c[j - 1]; }
    }
  }

  /** `replace(/\s+/g, " ")`: every maximal run of whitespace becomes one space. */
  function Collapse(s: string): (r: string)
    ensures SingleSpaced(r)
    ensures r == [] <==> s == []
    ensures s != [] ==> (IsSpace(r[0]) <==> IsSpace(s[0]))
    decreases |s|
  {
    if s == [] then []
    else if IsSpace(s[0]) then
      var c := Collapse(TrimStart(s[1..]));
      SingleSpacedCons(' ', c);
      [' '] + c
    else
      var c := Collapse(s[1..]);
      SingleSpacedCons(s[0], c);
      [s[0]] + c
  }

  /** Collapsing keeps whether the string ends in whitespace. */
  lemma {:induction false} CollapseLast(s: string)
    requires s != []
    ensures IsSpace(Collapse(s)[|Collapse(s)| - 1]) <==> IsSpace(s[|s| - 1])
    decreases |s|
  {
    var c := Collapse(s);
    if IsSpace(s[0]) {
      var tail := s[1..];
      var rest := TrimStart(tail);
      assert c == [' '] + Collapse(rest);
      if rest == [] {
        assert c == [' '];
        if |s| > 1 {
          assert AllSpaces(tail[..|tail|]);
          assert s[|s| - 1] == tail[|tail| - 1];
        }
      } else {
        CollapseLast(rest);
        assert rest[|rest| - 1] == tail[|tail| - 1] == s[|s| - 1];
        assert c[|c| - 1] == Collapse(rest)[|Collapse(rest)| - 1];
      }
    } else if |s| > 1 {
      CollapseLast(s[1..]);
      assert c == [s[0]] + Collapse(s[1..]);
      assert c[|c| - 1] == Collapse(s[1..])[|Collapse(s[1..])| - 1];
    } else {
      assert c == [s[0]];
    }
  }

  /** Collapsing introduces no upper-case letter. */
  lemma {:induction false} CollapseNoUpper(s: string)
    requires NoUpper(s)
    ensures NoUpper(Collapse(s))
    decreases |s|
  {
    if s != [] {
      if IsSpace(s[0]) {
        var rest := TrimStart(s[1..]);
        assert forall i :: 0 <= i < |rest| ==> rest[i] == s[|s| - |rest| + i];
        CollapseNoUpper(rest);
      } else {
        CollapseNoUpper(s[1..]);
      }
    }
  }

  /** Collapsing a string that is already single-spaced changes nothing. */
  lemma {:induction false} CollapseSingleSpaced(s: string)
    requires SingleSpaced(s)
    ensures Collapse(s) == s
    decreases |s|
  {
    if s != [] {
      assert SingleSpaced(s[1..]);
      if IsSpace(s[0]) {
        assert s[1..] == [] || !IsSpace(s[1]);
        assert TrimStart(s[1..]) == s[1..];
      }
      CollapseSingleSpaced(s[1..]);
    }
  }

  /** `s` with its whitespace removed. */
  function Squeeze(s: string): string
    decreases |s|
  {
    if s == [] then [] else (if IsSpace(s[0]) then [] else [s[0]]) + Squeeze(s[1..])
  }

  /** Whitespace in front adds nothing to the squeezed text. */
  lemma {:induction false} SqueezeSkip(p: string, x: string)
    requires AllSpaces(p)
    ensures Squeeze(p + x) == Squeeze(x)
    decreases |p|
  {
    if p == [] {
      assert p + x == x;
    } else {
      assert (p + x)[1..] == p[1..] + x;
      SqueezeSkip(p[1..], x);
    }
  }

  /** Removing whitespace works piece by piece. */
  lemma {:induction false} SqueezeConcat(x: string, y: string)
    ensures Squeeze(x + y) == Squeeze(x) + Squeeze(y)
    decreases |x|
  {
    if x == [] {
      assert x + y == y;
    } else {
      assert (x + y)[1..] == x[1..] + y;
      SqueezeConcat(x[1..], y);
    }
  }

  /** Only whitespace leaves nothing behind, and a non-whitespace character survives. */
  lemma {:induction false} SqueezeEmpty(s: string)
    ensures Squeeze(s) == [] <==> AllSpaces(s)
    decreases |s|
  {
    if s != [] {
      SqueezeEmpty(s[1..]);
      if AllSpaces(s[1..]) && IsSpace(s[0]) {
        assert s == [s[0]] + s[1..];
      }
    }
  }

  /** Collapsing only touches whitespace: with the whitespace removed, the collapsed
      string and the original are the same. */
  lemma {:induction false} CollapseKeepsText(s: string)
    ensures Squeeze(Collapse(s)) == Squeeze(s)
    decreases |s|
  {
    if s != [] {
      var tail := s[1..];
      if IsSpace(s[0]) {
        var rest := TrimStart(tail);
        CollapseKeepsText(rest);
        assert tail == tail[..|tail| - |rest|] + rest;
        SqueezeSkip(tail[..|tail| - |rest|], rest);
        assert ([' '] + Collapse(rest))[1..] == Collapse(rest);
      } else {
        CollapseKeepsText(tail);
        assert ([s[0]] + Collapse(tail))[1..] == Collapse(tail);
      }
    }
  }

  /** The key two prompts are compared by: trimmed, lower-cased, whitespace runs
      collapsed (generation-client.tsx:141, :172, :179). */
  function Normalize(s: string): (r: string)
    ensures SingleSpaced(r)
    ensures NoUpper(r)
    ensures r == [] || (!IsSpace(r[0]) && !IsSpace(r[|r| - 1]))
    ensures r == [] <==> AllSpaces(s)
  {
    var t := Trim(s);
    var l := Lower(t);
    LowerKeepsEnds(t);
    if l == [] then []
    else CollapseLast(l); CollapseNoUpper(l); Collapse(l)
  }

  /** Normalising is idempotent: a key is its own key. */
  lemma NormalizeIdempotent(s: string)
    ensures Normalize(Normalize(s)) == Normalize(s)
  {
    var n := Normalize(s);
    TrimUntrimmed(n);
    LowerNoUpper(n);
    CollapseSingleSpaced(n);
    if n != [] {
      assert Trim(n) == n && Lower(n) == n;
    }
  }

  /** A string without upper-case letters is its own lower-case form. */
  lemma LowerNoUpper(s: string)
    requires NoUpper(s)
    ensures Lower(s) == s
  {
  }

  // ---------------------------------------------------------------------------
  // Tokens
  // ---------------------------------------------------------------------------

  /** The longest prefix of `s` without whitespace. */
  function TakeWord(s: string): (w: string)
    ensures |w| <= |s| && w == s[..|w|]
    ensures NoSpaces(w)
    ensures |w| == |s| || IsSpace(s[|w|])
  {
    if s == [] || IsSpace(s[0]) then [] else [s[0]] + TakeWord(s[1..])
  }

  /** A character that survives the symbol replacement of `tokenize`. */
  predicate CleanChar(c: char) {
    IsLower(c) || IsDigit(c) || IsSpace(c)
  }

  /** Only lower-case letters, digits and whitespace. */
  predicate Clean(s: string) {
    forall i :: 0 <= i < |s| ==> CleanChar(s[i])
  }

  /** A token: a non-empty run of lower-case letters and digits. */
  predicate IsToken(t: string) {
    |t| > 0 && forall i :: 0 <= i < |t| ==> IsLower(t[i]) || IsDigit(t[i])
  }

  /** Every word is non-empty and has no whitespace; when `clean`, every word is clean. */
  predicate WordList(ws: seq<string>, clean: bool) {
    forall i :: 0 <= i < |ws| ==> |ws[i]| > 0 && NoSpaces(ws[i]) && (clean ==> Clean(ws[i]))
  }

  /** `split(/\s+/).filter(Boolean)`: the maximal whitespace-free runs of `s`, in order. */
  function Words(s: string): (ws: seq<string>)
    ensures WordList(ws, Clean(s))
    decreases |s|
  {
    if s == [] then []
    else if IsSpace(s[0]) then
      CleanSlice(s, 1, |s|);
      Words(s[1..])
    else
      var w := TakeWord(s);
      CleanSlice(s, 0, |w|);
      CleanSlice(s, |w|, |s|);
      var ws := Words(s[|w|..]);
      WordListCons(w, ws, Clean(s));
      [w] + ws
  }

  lemma WordListCons(w: string, ws: seq<string>, clean: bool)
    requires |w| > 0 && NoSpaces(w) && (clean ==> Clean(w))
    requires WordList(ws, clean)
    ensures WordList([w] + ws, clean)
  {
    forall i | 0 <= i < |ws| + 1 ensures ([w] + ws)[i] == (if i == 0 then w else ws[i - 1]) { }
  }

  /** A piece of a clean string is clean. */
  lemma CleanSlice(s: string, i: nat, j: nat)
    requires i <= j <= |s|
    ensures Clean(s) ==> Clean(s[i..j])
  {
    if Clean(s) {
      forall k | 0 <= k < j - i ensures CleanChar(s[i..j][k]) {
        assert s[i..j][k] == s[i + k];
      }
    }
  }

  /** Lower-case, then every character other than `a-z`, `0-9` or whitespace becomes a space
      (generation-client.tsx:110-111): letters are lowered, digits and whitespace kept,
      and everything else turned into a space. */
  function ReplaceSymbols(s: string): (r: string)
    ensures |r| == |s| && Clean(r)
    ensures forall i :: 0 <= i < |s| && (IsUpper(s[i]) || IsLower(s[i]) || IsDigit(s[i]) || IsSpace(s[i])) ==>
              r[i] == LowerChar(s[i])
    ensures forall i :: 0 <= i < |s| && !(IsUpper(s[i]) || IsLower(s[i]) || IsDigit(s[i]) || IsSpace(s[i])) ==>
              r[i] == ' '
  {
    seq(|s|, i requires 0 <= i < |s| =>
      var c := LowerChar(s[i]);
      if CleanChar(c) then c else ' ')
  }

  /** `tokenize` (generation-client.tsx:108-113): every token is a non-empty run of
      lower-case letters and digits. */
  function Tokenize(text: string): (tokens: seq<string>)
    ensures forall t :: t in tokens ==> IsToken(t)
  {
    Words(ReplaceSymbols(text))
  }

  /** The tokens are the words of the cleaned text: joined by single spaces they give
      the cleaned text's comparison key, and splitting that key gives them back. */
  lemma TokenizeMeaning(text: string)
    ensures Join(Tokenize(text), " ") == Normalize(ReplaceSymbols(text))
    ensures Tokenize(text) == Words(Normalize(ReplaceSymbols(text)))
  {
    var r := ReplaceSymbols(text);
    LowerNoUpper(r);
    NormalizeWords(r);
    WordsOfJoin(Tokenize(text));
  }

  predicate IsAlnum(c: char) { IsUpper(c) || IsLower(c) || IsDigit(c) }

  /** The symbol replacement works character by character. */
  lemma ReplaceSymbolsConcat(a: string, b: string)
    ensures ReplaceSymbols(a + b) == ReplaceSymbols(a) + ReplaceSymbols(b)
  {
  }

  /** Letters and digits are only lowered. */
  lemma ReplaceSymbolsOfAlnum(w: string)
    requires forall i :: 0 <= i < |w| ==> IsAlnum(w[i])
    ensures ReplaceSymbols(w) == Lower(w)
  {
    var r := ReplaceSymbols(w);
    forall i | 0 <= i < |w| ensures r[i] == Lower(w)[i] {
      assert IsAlnum(w[i]);
    }
  }

  /** A space or a symbol splits the text: the tokens of the whole are the tokens of
      the part before it followed by the tokens of the part after it. */
  lemma TokenizeSplit(x: string, sep: char, y: string)
    requires sep == ' ' || !(IsAlnum(sep) || IsSpace(sep))
    ensures Tokenize(x + [sep] + y) == Tokenize(x) + Tokenize(y)
  {
    ReplaceSymbolsConcat(x + [sep], y);
    ReplaceSymbolsConcat(x, [sep]);
    assert ReplaceSymbols([sep]) == " ";
    WordsAppend(ReplaceSymbols(x), ReplaceSymbols(y));
  }

  /** A space or a symbol at the end adds no token. */
  lemma TokenizeTrail(x: string, sep: char)
    requires sep == ' ' || !(IsAlnum(sep) || IsSpace(sep))
    ensures Tokenize(x + [sep]) == Tokenize(x)
  {
    ReplaceSymbolsConcat(x, [sep]);
    assert ReplaceSymbols([sep]) == " ";
    WordsTrail(ReplaceSymbols(x), " ");
  }

  /** A run of letters and digits alone is one token. */
  lemma TokenizeWord(w: string)
    requires w != [] && forall i :: 0 <= i < |w| ==> IsAlnum(w[i])
    ensures Tokenize(w) == [Lower(w)]
  {
    ReplaceSymbolsOfAlnum(w);
    WordsOfWord(Lower(w));
  }

  // ---------------------------------------------------------------------------
  // Words and the comparison key
  // ---------------------------------------------------------------------------

  /** `Array.prototype.join(sep)`. */
  function Join(parts: seq<string>, sep: string): (r: string)
    ensures parts != [] && parts[0] != [] ==> r != []
  {
    if parts == [] then [] else if |parts| == 1 then parts[0] else parts[0] + sep + Join(parts[1..], sep)
  }

  /** Whitespace alone has no words. */
  lemma {:induction false} WordsOfSpaces(q: string)
    requires AllSpaces(q)
    ensures Words(q) == []
    decreases |q|
  {
    if q != [] {
      WordsOfSpaces(q[1..]);
    }
  }

  /** Leading whitespace does not change the words. */
  lemma {:induction false} WordsSkip(p: string, x: string)
    requires AllSpaces(p)
    ensures Words(p + x) == Words(x)
    decreases |p|
  {
    if p == [] {
      assert p + x == x;
    } else {
      assert (p + x)[1..] == p[1..] + x;
      WordsSkip(p[1..], x);
    }
  }

  /** A word ends where whitespace starts. */
  lemma {:induction false} TakeWordBeforeSpace(x: string, q: string)
    requires q == [] || IsSpace(q[0])
    ensures TakeWord(x + q) == TakeWord(x)
    decreases |x|
  {
    if x == [] {
      assert x + q == q;
    } else if !IsSpace(x[0]) {
      assert (x + q)[1..] == x[1..] + q;
      TakeWordBeforeSpace(x[1..], q);
    }
  }

  /** A whitespace-free start belongs to the first word. */
  lemma {:induction false} TakeWordOfWord(w: string, q: string)
    requires NoSpaces(w)
    ensures TakeWord(w + q) == w + TakeWord(q)
    decreases |w|
  {
    if w == [] {
      assert w + q == q;
    } else {
      assert (w + q)[1..] == w[1..] + q;
      TakeWordOfWord(w[1..], q);
      assert w == [w[0]] + w[1..];
    }
  }

  /** Trailing whitespace does not change the words. */
  lemma {:induction false} WordsTrail(x: string, q: string)
    requires AllSpaces(q)
    ensures Words(x + q) == Words(x)
    decreases |x|
  {
    if x == [] {
      assert x + q == q;
      WordsOfSpaces(q);
    } else if IsSpace(x[0]) {
      assert (x + q)[1..] == x[1..] + q;
      WordsTrail(x[1..], q);
    } else {
      var w := TakeWord(x);
      TakeWordBeforeSpace(x, q);
      assert (x + q)[|w|..] == x[|w|..] + q;
      WordsTrail(x[|w|..], q);
    }
  }

  /** A word followed by a space starts the word list. */
  lemma WordsCons(w: string, rest: string)
    requires w != [] && NoSpaces(w)
    ensures Words(w + " " + rest) == [w] + Words(rest)
  {
    var s := w + " " + rest;
    assert s == w + (" " + rest);
    TakeWordOfWord(w, " " + rest);
    assert TakeWord(" " + rest) == [];
    assert s[|w|..] == " " + rest;
    assert (" " + rest)[1..] == rest;
  }

  /** A single word is its own word list. */
  lemma WordsOfWord(w: string)
    requires w != [] && NoSpaces(w)
    ensures Words(w) == [w]
  {
    TakeWordOfWord(w, []);
    assert w + [] == w;
  }

  /** Splitting words joined by single spaces gives the words back. */
  lemma {:induction false} WordsOfJoin(ws: seq<string>)
    requires WordList(ws, false)
    ensures Words(Join(ws, " ")) == ws
    decreases |ws|
  {
    if |ws| == 1 {
      WordsOfWord(ws[0]);
    } else if |ws| > 1 {
      assert WordList(ws[1..], false) by {
        forall i | 0 <= i < |ws| - 1 ensures ws[1..][i] == ws[i + 1] { }
      }
      WordsOfJoin(ws[1..]);
      WordsCons(ws[0], Join(ws[1..], " "));
      assert ws == [ws[0]] + ws[1..];
    }
  }

  /** Collapsing passes over a word unchanged. */
  lemma {:induction false} CollapseWord(w: string, rest: string)
    requires NoSpaces(w)
    ensures Collapse(w + rest) == w + Collapse(rest)
    decreases |w|
  {
    if w == [] {
      assert w + rest == rest;
    } else {
      assert (w + rest)[1..] == w[1..] + rest;
      CollapseWord(w[1..], rest);
      assert w == [w[0]] + w[1..];
    }
  }

  lemma ConcatAssoc(a: string, b: string, c: string)
    ensures a + (b + c) == a + b + c
  {
  }

  /** Joining a non-empty tail after one more part puts the separator between them. */
  lemma JoinCons(w: string, ws: seq<string>, sep: string)
    requires ws != []
    ensures Join([w] + ws, sep) == w + sep + Join(ws, sep)
  {
    assert ([w] + ws)[1..] == ws;
  }

  /** Collapsing turns a leading run of whitespace into one space. */
  lemma CollapseGap(rest: string)
    requires rest != [] && IsSpace(rest[0])
    ensures Collapse(rest) == " " + Collapse(TrimStart(rest[1..]))
  {
  }

  /** Splitting drops a leading run of whitespace. */
  lemma WordsGap(rest: string)
    requires rest != [] && IsSpace(rest[0])
    ensures Words(rest) == Words(TrimStart(rest[1..]))
  {
    var tail := rest[1..];
    var u := TrimStart(tail);
    SuffixSplit(tail, |tail| - |u|);
    WordsSkip(tail[..|tail| - |u|], u);
  }

  lemma SuffixSplit(s: string, k: nat)
    requires k <= |s|
    ensures s == s[..k] + s[k..]
  {
  }

  /** What follows a leading run of whitespace ends where the whole string ends. */
  lemma GapEnd(rest: string)
    requires rest != [] && IsSpace(rest[0]) && !IsSpace(rest[|rest| - 1])
    ensures var u := TrimStart(rest[1..]); u != [] && Unpadded(u) && |u| < |rest|
  {
    var tail := rest[1..];
    assert tail[|tail| - 1] == rest[|rest| - 1];
    WordEndKept(tail, TrimStart(tail));
  }

  /** A suffix that only whitespace precedes keeps a non-whitespace last character. */
  lemma WordEndKept(s: string, u: string)
    requires s != [] && !IsSpace(s[|s| - 1])
    requires |u| <= |s| && u == s[|s| - |u|..] && AllSpaces(s[..|s| - |u|])
    ensures u != [] && u[|u| - 1] == s[|s| - 1]
  {
    assert s == s[..|s| - |u|] + u;
  }

  /** On a string without whitespace at its ends, collapsing joins its words with
      single spaces. */
  lemma {:induction false} CollapseJoinsWords(t: string)
    requires Unpadded(t)
    ensures Collapse(t) == Join(Words(t), " ")
    decreases |t|
  {
    if t != [] {
      var w := TakeWord(t);
      var rest := t[|w|..];
      assert t == w + rest;
      CollapseWord(w, rest);
      assert Words(t) == [w] + Words(rest);
      if rest == [] {
        assert Collapse(t) == w + [] == w;
      } else {
        assert rest[|rest| - 1] == t[|t| - 1];
        var u := TrimStart(rest[1..]);
        CollapseGap(rest);
        WordsGap(rest);
        GapEnd(rest);
        CollapseJoinsWords(u);
        JoinCons(w, Words(u), " ");
        calc {
          Collapse(t);
          w + (" " + Collapse(u));
          w + (" " + Join(Words(u), " "));
          { ConcatAssoc(w, " ", Join(Words(u), " ")); }
          w + " " + Join(Words(u), " ");
          Join([w] + Words(u), " ");
        }
      }
    }
  }

  /** The words joined by single spaces are what trimming and collapsing leave. */
  lemma WordsJoined(s: string)
    ensures Join(Words(s), " ") == Collapse(Trim(s))
  {
    var r := Trim(s);
    var p, q := TrimParts(s);
    ConcatAssoc(p, r, q);
    WordsSkip(p, r + q);
    WordsTrail(r, q);
    CollapseJoinsWords(r);
  }

  /** Lower-casing works character by character. */
  lemma LowerConcat(x: string, y: string)
    ensures Lower(x + y) == Lower(x) + Lower(y)
  {
  }

  /** Lower-casing keeps whitespace and non-whitespace where they were. */
  lemma LowerSpaces(s: string)
    ensures AllSpaces(s) ==> AllSpaces(Lower(s))
    ensures Unpadded(s) ==> Unpadded(Lower(s))
  {
  }

  /** Lower-casing a string cut into whitespace, a trimmed middle and whitespace
      leaves the lowered middle as its trim. */
  lemma LowerCut(p: string, m: string, q: string)
    requires AllSpaces(p) && AllSpaces(q) && Unpadded(m)
    ensures Trim(Lower(p + m + q)) == Lower(m)
  {
    LowerConcat(p + m, q);
    LowerConcat(p, m);
    LowerSpaces(p);
    LowerSpaces(q);
    LowerSpaces(m);
    TrimUnique(Lower(p), Lower(m), Lower(q));
  }

  /** Cutting `s` at `k` and then its suffix at `j` leaves three pieces that make `s`. */
  lemma CutTwice(s: string, k: nat, j: nat)
    requires k <= |s| && j <= |s| - k
    ensures s == s[..k] + s[k..][..j] + s[k..][j..]
  {
    assert s[k..] == s[k..][..j] + s[k..][j..];
  }

  /** Any string is its leading whitespace, its trim and its trailing whitespace. */
  lemma TrimParts(s: string) returns (p: string, q: string)
    ensures s == p + Trim(s) + q && AllSpaces(p) && AllSpaces(q)
  {
    var t := TrimStart(s);
    var r := TrimEnd(t);
    var k := |s| - |t|;
    CutTwice(s, k, |r|);
    p, q := s[..k], t[|r|..];
  }

  /** Lower-casing and trimming commute. */
  lemma LowerTrim(s: string)
    ensures Lower(Trim(s)) == Trim(Lower(s))
  {
    var p, q := TrimParts(s);
    LowerCut(p, Trim(s), q);
  }

  /** Trimming only drops whitespace. */
  lemma SqueezeTrim(s: string)
    ensures Squeeze(Trim(s)) == Squeeze(s)
  {
    var p, q := TrimParts(s);
    SqueezeConcat(p + Trim(s), q);
    SqueezeConcat(p, Trim(s));
    SqueezeEmpty(p);
    SqueezeEmpty(q);
  }

  /** The comparison key keeps every non-whitespace character of the prompt, lower-cased
      and in order: only whitespace is dropped or merged. */
  lemma NormalizeKeepsText(s: string)
    ensures Squeeze(Normalize(s)) == Squeeze(Lower(s))
  {
    var l := Lower(Trim(s));
    CollapseKeepsText(l);
    LowerTrim(s);
    SqueezeTrim(Lower(s));
  }

  /** The comparison key is the lower-cased words joined by single spaces. */
  lemma NormalizeWords(s: string)
    ensures Normalize(s) == Join(Words(Lower(s)), " ")
  {
    LowerTrim(s);
    WordsJoined(Lower(s));
  }

  /** Words on either side of a space are split apart. */
  lemma {:induction false} WordsAppend(x: string, y: string)
    ensures Words(x + " " + y) == Words(x) + Words(y)
    decreases |x|
  {
    var s := x + " " + y;
    if x == [] {
      assert s == " " + y;
      assert s[1..] == y;
    } else if IsSpace(x[0]) {
      assert s[1..] == x[1..] + " " + y;
      WordsAppend(x[1..], y);
    } else {
      var w := TakeWord(x);
      ConcatAssoc(x, " ", y);
      TakeWordBeforeSpace(x, " " + y);
      assert s[|w|..] == x[|w|..] + " " + y;
      WordsAppend(x[|w|..], y);
    }
  }

  /** Two prompts share a comparison key exactly when their lower-cased words agree. */
  lemma SameKeySameWords(a: string, b: string)
    ensures Normalize(a) == Normalize(b) <==> Words(Lower(a)) == Words(Lower(b))
  {
    NormalizeWords(a);
    NormalizeWords(b);
    WordsOfJoin(Words(Lower(a)));
    WordsOfJoin(Words(Lower(b)));
  }

  // ---------------------------------------------------------------------------
  // Decimal numbers
  // ---------------------------------------------------------------------------

  function DigitChar(d: nat): (c: char)
    requires d < 10
    ensures IsDigit(c)
  {
    ('0' as int + d) as char
  }

  function DigitValue(c: char): (d: nat)
    requires IsDigit(c)
    ensures d < 10 && DigitChar(d) == c
  {
    c as int - '0' as int
  }

  /** Decimal rendering of a natural number, as `${n}` prints it. */
  function NatToString(n: nat): (r: string)
    ensures |r| >= 1 && forall i :: 0 <= i < |r| ==> IsDigit(r[i])
    ensures r[0] == '0' ==> n == 0
    ensures n >= 10 ==> |r| >= 2
    decreases n
  {
    if n < 10 then [DigitChar(n)] else NatToString(n / 10) + [DigitChar(n % 10)]
  }

  /** Decimal rendering of an integer, with a leading `-` when it is negative. */
  function IntToString(i: int): (r: string)
    ensures |r| >= 1
    ensures i < 0 <==> r[0] == '-'
  {
    if i < 0 then "-" + NatToString(-i) else NatToString(i)
  }

  predicate AllDigits(s: string) {
    forall i :: 0 <= i < |s| ==> IsDigit(s[i])
  }

  /** The value of a string of decimal digits. */
  function DigitsValue(s: string): nat
    requires AllDigits(s)
    decreases |s|
  {
    if s == [] then 0 else DigitsValue(s[..|s| - 1]) * 10 + DigitValue(s[|s| - 1])
  }

  /** Reading back a rendered natural number gives the number. */
  lemma {:induction false} DigitsValueOfNatToString(n: nat)
    ensures DigitsValue(NatToString(n)) == n
    decreases n
  {
    var r := NatToString(n);
    if n >= 10 {
      assert r[..|r| - 1] == NatToString(n / 10);
      DigitsValueOfNatToString(n / 10);
      assert DigitValue(r[|r| - 1]) == n % 10;
    } else {
      assert DigitValue(r[0]) == n;
    }
  }

  /** Different numbers render differently. */
  lemma NatToStringInjective(a: nat, b: nat)
    requires NatToString(a) == NatToString(b)
    ensures a == b
  {
    DigitsValueOfNatToString(a);
    DigitsValueOfNatToString(b);
  }
}
