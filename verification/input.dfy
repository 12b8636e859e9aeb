/**
 The answer typed at the ".gitignore" prompt: the line is trimmed of
 surrounding whitespace, lower-cased, and classified as accept (the empty
 default or "y"), decline ("n") or invalid (anything else).
 */
module Input {

  /** One attempt to read a line from standard input. */
  datatype ReadLine = Line(text: string) | ReadError

  datatype Answer = Accept | Decline | Invalid

  /** The code points Unicode lists under the White_Space property. */
  const WhiteSpaceCodePoints: set<int> := {
    0x09, 0x0A, 0x0B, 0x0C, 0x0D, 0x20, 0x85, 0xA0, 0x1680,
    0x2000, 0x2001, 0x2002, 0x2003, 0x2004, 0x2005, 0x2006, 0x2007, 0x2008, 0x2009, 0x200A,
    0x2028, 0x2029, 0x202F, 0x205F, 0x3000
  }

  /** Rust's `char::is_whitespace`, the Unicode White_Space property. */
  predicate IsWhitespace(c: char) {
    || ('\t' <= c <= '\r')
    || c == ' '
    || c == '\U{0085}'
    || c == '\U{00A0}'
    || c == '\U{1680}'
    || ('\U{2000}' <= c <= '\U{200A}')
    || c == '\U{2028}'
    || c == '\U{2029}'
    || c == '\U{202F}'
    || c == '\U{205F}'
    || c == '\U{3000}'
  }

  /** The ranges above are exactly Unicode's list of White_Space code points. */
  lemma WhitespaceCodePoints(c: char)
    ensures IsWhitespace(c) <==> c as int in WhiteSpaceCodePoints
  {
  }

  predicate AllWhitespace(s: string) {
    forall i :: 0 <= i < |s| ==> IsWhitespace(s[i])
  }

  /** `s` with its leading whitespace removed: a suffix of `s` that starts
      with a non-whitespace character, everything cut off being whitespace. */
  function TrimStart(s: string): (r: string)
    ensures |r| <= |s| && r == s[|s| - |r|..]
    ensures AllWhitespace(s[..|s| - |r|])
    ensures r == [] || !IsWhitespace(r[0])
  {
    if |s| > 0 && IsWhitespace(s[0]) then
      var r := TrimStart(s[1..]);
      assert s[..|s| - |r|] == [s[0]] + s[1..][..|s| - 1 - |r|];
      r
    else
      s
  }

  /** `s` with its trailing whitespace removed: a prefix of `s` that ends
      with a non-whitespace character, everything cut off being whitespace. */
  function TrimEnd(s: string): (r: string)
    ensures |r| <= |s| && r == s[..|r|]
    ensures AllWhitespace(s[|r|..])
    ensures r == [] || !IsWhitespace(r[|r| - 1])
  {
    if |s| > 0 && IsWhitespace(s[|s| - 1]) then
      var r := TrimEnd(s[..|s| - 1]);
      assert s[|r|..] == s[..|s| - 1][|r|..] + [s[|s| - 1]];
      r
    else
      s
  }

  /** How many leading characters `Trim` cuts off. */
  function TrimOffset(s: string): (n: nat)
    ensures n <= |s|
  {
    |s| - |TrimStart(s)|
  }

  /** Rust's `str::trim`: the slice of `s` between whitespace-only padding,
      neither starting nor ending with whitespace. */
  function Trim(s: string): (r: string)
    ensures TrimOffset(s) + |r| <= |s|
    ensures r == s[TrimOffset(s)..TrimOffset(s) + |r|]
    ensures AllWhitespace(s[..TrimOffset(s)])
    ensures AllWhitespace(s[TrimOffset(s) + |r|..])
    ensures r == [] || (!IsWhitespace(r[0]) && !IsWhitespace(r[|r| - 1]))
  {
    var t := TrimStart(s);
    var r := TrimEnd(t);
    var off := |s| - |t|;
    assert off == TrimOffset(s);
    assert s[off..off + |r|] == t[..|r|];
    assert s[off + |r|..] == t[|r|..];
    r
  }

  /** ASCII case folding of one character. */
  function LowerChar(c: char): char {
    if 'A' <= c <= 'Z' then (c as int + 32) as char else c
  }

  /** Lower-casing with ASCII case folding: same length, every capital
      `A`-`Z` becomes its small letter, every other character is kept, so
      no ASCII capital is left. */
  function Lowercase(s: string): (r: string)
    ensures |r| == |s|
    ensures forall i :: 0 <= i < |s| && 'A' <= s[i] <= 'Z' ==> r[i] as int == s[i] as int + 32
    ensures forall i :: 0 <= i < |s| && !('A' <= s[i] <= 'Z') ==> r[i] == s[i]
    ensures forall i :: 0 <= i < |r| ==> !('A' <= r[i] <= 'Z')
  {
    seq(|s|, i requires 0 <= i < |s| => LowerChar(s[i]))
  }

  /** `input.trim().to_lowercase()`: the trimmed line, character by
      character folded to lower case, so it has no whitespace at either end
      and no ASCII capital anywhere. */
  function Normalize(line: string): (r: string)
    ensures |r| == |Trim(line)|
    ensures forall i :: 0 <= i < |r| ==> r[i] == LowerChar(Trim(line)[i])
    ensures r == [] || (!IsWhitespace(r[0]) && !IsWhitespace(r[|r| - 1]))
    ensures forall i :: 0 <= i < |r| ==> !('A' <= r[i] <= 'Z')
  {
    Lowercase(Trim(line))
  }

  /** The decision table of the prompt: the empty default, `y` and `Y`
      accept, `n` and `N` decline, whatever whitespace surrounds them, and
      every other line is invalid. */
  function Classify(line: string): (a: Answer)
    ensures a == Accept <==> Trim(line) in {"", "y", "Y"}
    ensures a == Decline <==> Trim(line) in {"n", "N"}
  {
    LowercaseIsLetter(Trim(line), 'y');
    LowercaseIsLetter(Trim(line), 'n');
    var input := Normalize(line);
    if input == "" || input == "y" then Accept
    else if input == "n" then Decline
    else Invalid
  }

  /** Normalising an already normalised answer changes nothing. */
  lemma NormalizeIdempotent(line: string)
    ensures Normalize(Normalize(line)) == Normalize(line)
  {
    var r := Normalize(line);
    assert TrimStart(r) == r;
    assert TrimEnd(r) == r;
    assert Trim(r) == r;
    assert Lowercase(r) == r;
  }

  /** Leading whitespace does not change what is left after trimming the start. */
  lemma {:induction false} TrimStartSkips(pre: string, rest: string)
    requires AllWhitespace(pre)
    ensures TrimStart(pre + rest) == TrimStart(rest)
  {
    if pre != [] {
      assert (pre + rest)[1..] == pre[1..] + rest;
      TrimStartSkips(pre[1..], rest);
    } else {
      assert pre + rest == rest;
    }
  }

  /** Once a non-whitespace character has been met, what follows it is kept. */
  lemma {:induction false} TrimStartKeepsTail(s: string, post: string)
    requires !AllWhitespace(s)
    ensures TrimStart(s + post) == TrimStart(s) + post
  {
    if IsWhitespace(s[0]) {
      assert (s + post)[1..] == s[1..] + post;
      TrimStartKeepsTail(s[1..], post);
    }
  }

  /** Trailing whitespace does not change what is left after trimming the end. */
  lemma {:induction false} TrimEndSkips(rest: string, post: string)
    requires AllWhitespace(post)
    ensures TrimEnd(rest + post) == TrimEnd(rest)
  {
    if post != [] {
      var shorter := post[..|post| - 1];
      assert (rest + post)[..|rest + post| - 1] == rest + shorter;
      TrimEndSkips(rest, shorter);
    } else {
      assert rest + post == rest;
    }
  }

  /** Trimming is blind to whitespace added around the line. */
  lemma TrimIgnoresPadding(pre: string, s: string, post: string)
    requires AllWhitespace(pre) && AllWhitespace(post)
    ensures Trim(pre + s + post) == Trim(s)
  {
    assert pre + s + post == pre + (s + post);
    TrimStartSkips(pre, s + post);
    if AllWhitespace(s) {
      TrimStartSkips(s, post);
      TrimStartSkips(post, []);
      TrimStartSkips(s, []);
      assert post + [] == post && s + [] == s;
    } else {
      TrimStartKeepsTail(s, post);
      TrimEndSkips(TrimStart(s), post);
    }
  }

  /** Under ASCII folding, the only lines that lower-case to a one-letter
      ASCII word are that letter and its upper-case form. (Unicode folding
      adds preimages for some letters, such as the Kelvin sign for `k`, but
      none for `y` or `n`.) */
  lemma LowercaseIsLetter(s: string, c: char)
    requires 'a' <= c <= 'z'
    ensures Lowercase(s) == [c] <==> (s == [c] || s == [(c as int - 32) as char])
  {
    if Lowercase(s) == [c] {
      assert |s| == 1 && LowerChar(s[0]) == c;
    }
  }

  /** A single non-whitespace character is its own trimming. */
  lemma TrimSingle(c: char)
    requires !IsWhitespace(c)
    ensures Trim([c]) == [c]
  {
    assert TrimStart([c]) == [c];
    assert TrimEnd([c]) == [c];
  }

  /** The one-letter answers the prompt offers, `Y` and `n`, in either case. */
  lemma OfferedAnswers()
    ensures Classify("y") == Accept && Classify("Y") == Accept
    ensures Classify("n") == Decline && Classify("N") == Decline
  {
    TrimSingle('y');
    TrimSingle('Y');
    TrimSingle('n');
    TrimSingle('N');
    LowercaseIsLetter("y", 'y');
    LowercaseIsLetter("Y", 'y');
    LowercaseIsLetter("n", 'n');
    LowercaseIsLetter("N", 'n');
  }

  /** Whitespace around the answer, such as the newline `read_line` keeps,
      never changes the decision. */
  lemma ClassifyIgnoresPadding(pre: string, line: string, post: string)
    requires AllWhitespace(pre) && AllWhitespace(post)
    ensures Classify(pre + line + post) == Classify(line)
  {
    TrimIgnoresPadding(pre, line, post);
  }
}
