/** The `replace(input, pattern, replacement)` function that
    src/jmes_extensions.rs registers with the JMESPath runtime. Its body hands
    the three strings to Rust's `str::replace`, so this module defines that
    substitution: every non-overlapping occurrence of `pattern`, found left
    to right, becomes `replacement`; an empty pattern matches at every
    character boundary. */
module JmesExtensions {
  import opened Wrappers

  // ---------------------------------------------------------------------
  // The substitution

  /** `input.replace(pattern, replacement)`. */
  function Replace(input: string, pattern: string, replacement: string): string
    decreases |input|
  {
    if pattern == [] then
      if input == [] then replacement
      else replacement + [input[0]] + Replace(input[1..], pattern, replacement)
    else if input == [] then []
    else if pattern <= input then replacement + Replace(input[|pattern|..], pattern, replacement)
    else [input[0]] + Replace(input[1..], pattern, replacement)
  }

  /** How many times `Replace` substitutes: the non-overlapping occurrences
      met scanning left to right (for the empty pattern, every boundary). */
  function Count(input: string, pattern: string): (k: nat)
    ensures pattern != [] ==> k * |pattern| <= |input|
    decreases |input|
  {
    if pattern == [] then |input| + 1
    else if input == [] then 0
    else if pattern <= input then
      var rest := Count(input[|pattern|..], pattern);
      OneMore(0, rest, |pattern|);
      1 + rest
    else Count(input[1..], pattern)
  }

  /** `pattern` appears in `s` starting at index `i`. */
  predicate MatchAt(pattern: string, s: string, i: int) {
    0 <= i <= |s| - |pattern| && s[i..i + |pattern|] == pattern
  }

  /** `pattern` appears somewhere in `s`. */
  ghost predicate Occurs(pattern: string, s: string) {
    exists i :: MatchAt(pattern, s, i)
  }

  // ---------------------------------------------------------------------
  // Reference definition: split at the matches, then join

  /** `input.split(pattern)` for a non-empty pattern: the text between
      successive left-to-right matches. */
  function Split(input: string, pattern: string): (parts: seq<string>)
    requires pattern != []
    ensures |parts| >= 1
    decreases |input|
  {
    if input == [] then [[]]
    else if pattern <= input then [[]] + Split(input[|pattern|..], pattern)
    else
      var tail := Split(input[1..], pattern);
      [[input[0]] + tail[0]] + tail[1..]
  }

  /** `parts.join(sep)`. */
  function Join(parts: seq<string>, sep: string): string
    requires |parts| >= 1
    decreases |parts|
  {
    if |parts| == 1 then parts[0] else parts[0] + sep + Join(parts[1..], sep)
  }

  lemma JoinExtendFirst(x: string, parts: seq<string>, sep: string)
    requires |parts| >= 1
    ensures Join([x + parts[0]] + parts[1..], sep) == x + Join(parts, sep)
  {
    var joined := [x + parts[0]] + parts[1..];
    assert joined[1..] == parts[1..];
  }

  /** `replace` is splitting at the matches and joining with the
      replacement: the same pieces of the input survive, and each match
      becomes one copy of the replacement. */
  lemma {:induction false} ReplaceIsSplitJoin(input: string, pattern: string, replacement: string)
    requires pattern != []
    ensures Replace(input, pattern, replacement) == Join(Split(input, pattern), replacement)
    decreases |input|
  {
    if input == [] {
    } else if pattern <= input {
      var rest := input[|pattern|..];
      ReplaceIsSplitJoin(rest, pattern, replacement);
      var parts := [[]] + Split(rest, pattern);
      assert parts[1..] == Split(rest, pattern);
    } else {
      ReplaceIsSplitJoin(input[1..], pattern, replacement);
      JoinExtendFirst([input[0]], Split(input[1..], pattern), replacement);
    }
  }

  /** There is one more piece than there are matches. */
  lemma {:induction false} SplitCount(input: string, pattern: string)
    requires pattern != []
    ensures |Split(input, pattern)| == Count(input, pattern) + 1
    decreases |input|
  {
    if input == [] {
    } else if pattern <= input {
      SplitCount(input[|pattern|..], pattern);
    } else {
      SplitCount(input[1..], pattern);
    }
  }

  /** The first piece is where the input starts. */
  lemma {:induction false} SplitFirstIsPrefix(input: string, pattern: string)
    requires pattern != []
    ensures Split(input, pattern)[0] <= input
    decreases |input|
  {
    if input != [] && !(pattern <= input) {
      SplitFirstIsPrefix(input[1..], pattern);
      assert input == [input[0]] + input[1..];
    }
  }

  /** An occurrence inside `[c] + s` that does not start at 0 is one inside `s`. */
  lemma OccursAfterFirst(pattern: string, c: char, s: string)
    requires pattern != [] && Occurs(pattern, [c] + s) && !(pattern <= [c] + s)
    ensures Occurs(pattern, s)
  {
    var t := [c] + s;
    var i :| MatchAt(pattern, t, i);
    assert i != 0;
    var j := i - 1;
    assert s[j..j + |pattern|] == t[i..i + |pattern|];
    assert MatchAt(pattern, s, j);
  }

  /** No piece of `parts` contains `pattern`. */
  ghost predicate PatternFree(parts: seq<string>, pattern: string) {
    forall k :: 0 <= k < |parts| ==> !Occurs(pattern, parts[k])
  }

  lemma PatternFreeCons(first: string, rest: seq<string>, pattern: string)
    requires !Occurs(pattern, first) && PatternFree(rest, pattern)
    ensures PatternFree([first] + rest, pattern)
  {
    var parts := [first] + rest;
    forall k | 0 <= k < |parts| ensures !Occurs(pattern, parts[k]) {
      if k > 0 { assert parts[k] == rest[k - 1]; }
    }
  }

  lemma EmptyPatternFree(pattern: string)
    requires pattern != []
    ensures !Occurs(pattern, [])
  {
    assert forall i :: !MatchAt(pattern, [], i);
  }

  /** The piece that starts the input, when the input does not start with
      the pattern, is free of it if the rest's first piece is. */
  lemma FirstPieceFree(input: string, pattern: string, tailFirst: string)
    requires pattern != [] && input != [] && !(pattern <= input)
    requires tailFirst <= input[1..] && !Occurs(pattern, tailFirst)
    ensures !Occurs(pattern, [input[0]] + tailFirst)
  {
    var first := [input[0]] + tailFirst;
    assert first <= input by { assert input == [input[0]] + input[1..]; }
    if Occurs(pattern, first) {
      if pattern <= first {
        assert false;
      } else {
        OccursAfterFirst(pattern, input[0], tailFirst);
        assert false;
      }
    }
  }

  /** No piece kept between matches contains the pattern: no occurrence
      lies wholly inside a kept piece. */
  lemma {:induction false} SplitPiecesPatternFree(input: string, pattern: string)
    requires pattern != []
    ensures PatternFree(Split(input, pattern), pattern)
    decreases |input|
  {
    EmptyPatternFree(pattern);
    if input == [] {
      PatternFreeCons([], [], pattern);
    } else if pattern <= input {
      var rest := Split(input[|pattern|..], pattern);
      SplitPiecesPatternFree(input[|pattern|..], pattern);
      PatternFreeCons([], rest, pattern);
    } else {
      var tail := Split(input[1..], pattern);
      SplitPiecesPatternFree(input[1..], pattern);
      SplitFirstIsPrefix(input[1..], pattern);
      assert !Occurs(pattern, tail[0]);
      FirstPieceFree(input, pattern, tail[0]);
      assert PatternFree(tail[1..], pattern) by {
        forall k | 0 <= k < |tail[1..]| ensures !Occurs(pattern, tail[1..][k]) {
          assert tail[1..][k] == tail[k + 1];
        }
      }
      PatternFreeCons([input[0]] + tail[0], tail[1..], pattern);
    }
  }

  /** Joining the pieces with the pattern itself restores the input. */
  lemma SplitJoinRoundTrip(input: string, pattern: string)
    requires pattern != []
    ensures Join(Split(input, pattern), pattern) == input
  {
    ReplaceIsSplitJoin(input, pattern, pattern);
    ReplaceWithItself(input, pattern);
  }

  // ---------------------------------------------------------------------
  // Properties of `replace`

  /** Length accounting: each substitution trades `|pattern|` characters
      for `|replacement|`. */
  lemma {:induction false} ReplaceLength(input: string, pattern: string, replacement: string)
    ensures |Replace(input, pattern, replacement)|
            == |input| + Count(input, pattern) * (|replacement| - |pattern|)
    decreases |input|
  {
    var d := |replacement| - |pattern|;
    if input == [] {
    } else if pattern == [] {
      var rest := input[1..];
      ReplaceLength(rest, pattern, replacement);
      assert |Replace(input, pattern, replacement)| == |replacement| + 1 + |Replace(rest, pattern, replacement)|;
      OneMore(|input|, Count(rest, pattern), d);
    } else if pattern <= input {
      var rest := input[|pattern|..];
      ReplaceLength(rest, pattern, replacement);
      assert |Replace(input, pattern, replacement)| == |replacement| + |Replace(rest, pattern, replacement)|;
      OneMore(|input|, Count(rest, pattern), d);
    } else {
      ReplaceLength(input[1..], pattern, replacement);
    }
  }

  lemma OneMore(n: int, k: int, d: int)
    ensures n + (1 + k) * d == n + d + k * d
  {
  }

  /** The characters of `s`, each as a one-character string. */
  function Chars(s: string): (cs: seq<string>)
    ensures |cs| == |s|
  {
    seq(|s|, i requires 0 <= i < |s| => [s[i]])
  }

  /** The empty pattern matches at every character boundary: the
      replacement goes before, between and after the characters. */
  lemma {:induction false} ReplaceEmptyIsJoin(s: string, replacement: string)
    ensures Replace(s, [], replacement)
            == if s == [] then replacement else replacement + Join(Chars(s), replacement) + replacement
    decreases |s|
  {
    if s == [] {
    } else if |s| == 1 {
      assert s[1..] == [];
      assert Chars(s) == [[s[0]]];
    } else {
      var tail := s[1..];
      ReplaceEmptyIsJoin(tail, replacement);
      var inner := Join(Chars(tail), replacement);
      assert Join(Chars(s), replacement) == [s[0]] + replacement + inner by {
        assert Chars(s)[1..] == Chars(tail);
        assert Chars(s)[0] == [s[0]];
      }
      assert Replace(s, [], replacement)
             == replacement + [s[0]] + (replacement + inner + replacement);
      assert replacement + [s[0]] + (replacement + inner + replacement)
             == replacement + ([s[0]] + replacement + inner) + replacement;
    }
  }

  /** Replacing a pattern with itself changes nothing. */
  lemma {:induction false} ReplaceWithItself(input: string, pattern: string)
    ensures Replace(input, pattern, pattern) == input
    decreases |input|
  {
    if input == [] {
    } else if pattern != [] && pattern <= input {
      var rest := input[|pattern|..];
      ReplaceWithItself(rest, pattern);
      MatchStep(input, pattern, pattern);
      assert input == input[..|pattern|] + rest;
    } else {
      var rest := input[1..];
      ReplaceWithItself(rest, pattern);
      NoMatchStep(input, pattern, pattern);
      assert input == [input[0]] + rest;
    }
  }

  /** `replace` when the input starts with a non-empty pattern. */
  lemma MatchStep(input: string, pattern: string, replacement: string)
    requires pattern != [] && pattern <= input
    ensures Replace(input, pattern, replacement)
            == replacement + Replace(input[|pattern|..], pattern, replacement)
  {
  }

  /** `replace` when the input does not start with the pattern: the first
      character is kept (after a copy of the replacement if the pattern is
      empty). */
  lemma NoMatchStep(input: string, pattern: string, replacement: string)
    requires input != [] && (pattern == [] || !(pattern <= input))
    ensures Replace(input, pattern, replacement)
            == (if pattern == [] then replacement else []) + [input[0]] + Replace(input[1..], pattern, replacement)
  {
  }

  /** For a non-empty pattern, no substitution happens exactly when the
      pattern does not occur in the input. */
  lemma {:induction false} CountZeroIff(input: string, pattern: string)
    requires pattern != []
    ensures Count(input, pattern) == 0 <==> !Occurs(pattern, input)
    decreases |input|
  {
    if input == [] {
    } else if pattern <= input {
      assert MatchAt(pattern, input, 0);
    } else {
      CountZeroIff(input[1..], pattern);
      assert Count(input, pattern) == Count(input[1..], pattern);
      assert Occurs(pattern, input) <==> Occurs(pattern, input[1..]) by {
        OccursShift(pattern, input);
      }
    }
  }

  /** When the input does not start with the pattern, the pattern occurs in
      it exactly when it occurs after the first character. */
  lemma OccursShift(pattern: string, input: string)
    requires pattern != [] && input != [] && !(pattern <= input)
    ensures Occurs(pattern, input) <==> Occurs(pattern, input[1..])
  {
    if Occurs(pattern, input) {
      assert input == [input[0]] + input[1..];
      OccursAfterFirst(pattern, input[0], input[1..]);
    }
    if Occurs(pattern, input[1..]) {
      var j :| MatchAt(pattern, input[1..], j);
      var i := j + 1;
      assert input[i..i + |pattern|] == input[1..][j..j + |pattern|];
      assert MatchAt(pattern, input, i);
    }
  }

  /** Leftmost matching, stated against `MatchAt` rather than the scan: the
      text before the first occurrence is kept, that occurrence becomes the
      replacement, and the rest of the input is replaced on its own. */
  lemma ReplaceAtFirstMatch(input: string, pattern: string, replacement: string, i: nat)
    requires pattern != [] && MatchAt(pattern, input, i)
    requires forall j :: 0 <= j < i ==> !MatchAt(pattern, input, j)
    ensures Replace(input, pattern, replacement)
            == input[..i] + replacement + Replace(input[i + |pattern|..], pattern, replacement)
  {
    KeepBeforeFirstMatch(input, pattern, replacement, i);
    ReplaceFromMatch(input, pattern, replacement, i);
    ConcatAssoc(input[..i], replacement, Replace(input[i + |pattern|..], pattern, replacement));
  }

  /** The text before the first match is kept. */
  lemma KeepBeforeFirstMatch(input: string, pattern: string, replacement: string, i: nat)
    requires pattern != [] && i <= |input|
    requires forall j :: 0 <= j < i ==> !MatchAt(pattern, input, j)
    ensures Replace(input, pattern, replacement) == input[..i] + Replace(input[i..], pattern, replacement)
  {
    assert input == input[..i] + input[i..];
    KeepUnmatched(input[..i], input[i..], pattern, replacement);
  }

  /** From a match on, the match is replaced first. */
  lemma ReplaceFromMatch(input: string, pattern: string, replacement: string, i: nat)
    requires pattern != [] && MatchAt(pattern, input, i)
    ensures Replace(input[i..], pattern, replacement)
            == replacement + Replace(input[i + |pattern|..], pattern, replacement)
  {
    var rest := input[i..];
    assert rest[..|pattern|] == input[i..i + |pattern|];
    MatchStep(rest, pattern, replacement);
    assert rest[|pattern|..] == input[i + |pattern|..];
  }

  lemma ConcatAssoc(a: string, b: string, c: string)
    ensures a + (b + c) == a + b + c
  {
  }

  /** Text at none of whose positions a match starts is kept as it is. */
  lemma {:induction false} KeepUnmatched(before: string, rest: string, pattern: string, replacement: string)
    requires pattern != []
    requires forall j :: 0 <= j < |before| ==> !MatchAt(pattern, before + rest, j)
    ensures Replace(before + rest, pattern, replacement) == before + Replace(rest, pattern, replacement)
    decreases |before|
  {
    if before == [] {
      assert before + rest == rest;
    } else {
      UnmatchedTail(before, rest, pattern);
      KeepUnmatched(before[1..], rest, pattern, replacement);
      SkipStep(before + rest, pattern, replacement);
      assert before == [before[0]] + before[1..];
      ConsConcat(before[0], before[1..], Replace(rest, pattern, replacement));
    }
  }

  /** The hypothesis of `KeepUnmatched` passes from `before` to its tail. */
  lemma UnmatchedTail(before: string, rest: string, pattern: string)
    requires pattern != [] && before != []
    requires forall j :: 0 <= j < |before| ==> !MatchAt(pattern, before + rest, j)
    ensures !(pattern <= before + rest)
    ensures (before + rest)[0] == before[0] && (before + rest)[1..] == before[1..] + rest
    ensures forall j :: 0 <= j < |before[1..]| ==> !MatchAt(pattern, before[1..] + rest, j)
  {
    var input := before + rest;
    assert !MatchAt(pattern, input, 0);
    assert input[1..] == before[1..] + rest;
    forall j | 0 <= j < |before[1..]| ensures !MatchAt(pattern, before[1..] + rest, j) {
      MatchShift(pattern, input, j);
    }
  }

  /** An occurrence after the first character of `input` is one in its tail,
      one position earlier. */
  lemma MatchShift(pattern: string, input: string, j: nat)
    requires input != []
    ensures MatchAt(pattern, input[1..], j) <==> MatchAt(pattern, input, j + 1)
  {
    if j + |pattern| <= |input[1..]| {
      assert input[1..][j..j + |pattern|] == input[j + 1..j + 1 + |pattern|];
    }
  }

  /** With no substitution to make, the input comes back unchanged. */
  lemma {:induction false} ReplaceNoMatch(input: string, pattern: string, replacement: string)
    requires pattern != [] && Count(input, pattern) == 0
    ensures Replace(input, pattern, replacement) == input
    decreases |input|
  {
    if input != [] {
      ReplaceNoMatch(input[1..], pattern, replacement);
      assert input == [input[0]] + input[1..];
    }
  }

  /** If `pattern` does not occur in `input`, `replace` returns `input`. */
  lemma ReplaceAbsentPattern(input: string, pattern: string, replacement: string)
    requires pattern != [] && !Occurs(pattern, input)
    ensures Replace(input, pattern, replacement) == input
  {
    CountZeroIff(input, pattern);
    ReplaceNoMatch(input, pattern, replacement);
  }

  /** Text none of whose characters can start a match passes through
      `replace` unchanged, and the rest is replaced on its own. */
  lemma {:induction false} SkipNonStarters(text: string, rest: string, pattern: string, replacement: string)
    requires pattern != [] && pattern[0] !in text
    ensures Replace(text + rest, pattern, replacement) == text + Replace(rest, pattern, replacement)
    decreases |text|
  {
    if text == [] {
      assert text + rest == rest;
    } else {
      var c, more := text[0], text[1..];
      assert text == [c] + more;
      SkipOne(c, more + rest, pattern, replacement);
      SkipNonStarters(more, rest, pattern, replacement);
      ConsConcat(c, more, rest);
      ConsConcat(c, more, Replace(rest, pattern, replacement));
    }
  }

  lemma ConsConcat(c: char, a: string, b: string)
    ensures [c] + (a + b) == ([c] + a) + b
  {
  }

  /** One character that cannot start a match is kept as it is. */
  lemma SkipOne(c: char, rest: string, pattern: string, replacement: string)
    requires pattern != [] && c != pattern[0]
    ensures Replace([c] + rest, pattern, replacement) == [c] + Replace(rest, pattern, replacement)
  {
    var input := [c] + rest;
    assert input[0] == c && input[1..] == rest;
    NotPrefix(pattern, input);
    SkipStep(input, pattern, replacement);
  }

  /** `replace` when the input does not start with a non-empty pattern: the
      first character is kept. */
  lemma SkipStep(input: string, pattern: string, replacement: string)
    requires pattern != [] && input != [] && !(pattern <= input)
    ensures Replace(input, pattern, replacement) == [input[0]] + Replace(input[1..], pattern, replacement)
  {
  }

  /** A text whose first character differs from the pattern's does not
      start with the pattern. */
  lemma NotPrefix(pattern: string, s: string)
    requires pattern != [] && s != [] && s[0] != pattern[0]
    ensures !(pattern <= s)
  {
    assert |pattern| <= |s| ==> s[..|pattern|][0] == s[0];
  }

  /** The source's test vector: both occurrences of `foo` are replaced. */
  lemma ReplaceTestVector()
    ensures Replace("foo baz foo", "foo", "bar") == "bar baz bar"
  {
    TestVectorShape("foo", " baz ", "bar");
    assert "foo baz foo" == "foo" + " baz " + "foo";
    assert "bar baz bar" == "bar" + " baz " + "bar";
  }

  /** The shape of the test vector: a pattern, a gap that cannot start a
      match, and the pattern again. */
  lemma TestVectorShape(p: string, gap: string, r: string)
    requires p != [] && p[0] !in gap
    ensures Replace(p + gap + p, p, r) == r + gap + r
  {
    assert p + gap + p == p + (gap + p);
    assert Replace(p + (gap + p), p, r) == r + Replace(gap + p, p, r) by {
      MatchFirst(gap + p, p, r);
    }
    assert Replace(gap + p, p, r) == gap + Replace(p, p, r) by {
      SkipNonStarters(gap, p, p, r);
    }
    assert Replace(p, p, r) == r by {
      MatchFirst([], p, r);
      assert p + [] == p;
    }
  }

  /** `replace` on an input that starts with a non-empty pattern. */
  lemma MatchFirst(rest: string, pattern: string, replacement: string)
    requires pattern != []
    ensures Replace(pattern + rest, pattern, replacement) == replacement + Replace(rest, pattern, replacement)
  {
    var input := pattern + rest;
    assert input[..|pattern|] == pattern && input[|pattern|..] == rest;
    MatchStep(input, pattern, replacement);
  }

  /** Matches are consumed left to right and do not overlap. */
  lemma ReplaceLeftToRight()
    ensures Replace("aaa", "aa", "b") == "ba"
  {
    assert "a"[1..] == [];
    assert Replace("a", "aa", "b") == "a";
    assert "aaa"[2..] == "a";
  }

  /** The empty pattern matches at every character boundary. */
  lemma ReplaceEmptyPattern()
    ensures Replace("ab", "", "x") == "xaxbx"
  {
    assert "b"[1..] == [];
    assert Replace("b", "", "x") == "xbx";
    assert "ab"[1..] == "b";
  }

  // ---------------------------------------------------------------------
  // The registered custom function

  /** JMESPath runtime values (`jmespath::Variable`); numbers are kept as
      integers because no floating point is modelled. */
  datatype Variable =
    | Null
    | Bool(b: bool)
    | Number(n: int)
    | String(s: string)
    | Array(items: seq<Variable>)
    | Object(fields: map<string, Variable>)

  datatype ArgumentType = StringType | NumberType

  /** `jmespath::functions::Signature`: the types of the fixed arguments and,
      when the function is variadic, the type of every argument after them.
      A signature carries no result type. */
  datatype Signature = Signature(inputs: seq<ArgumentType>, variadic: Option<ArgumentType>)

  predicate HasType(v: Variable, t: ArgumentType) {
    match t
    case StringType => v.String?
    case NumberType => v.Number?
  }

  /** The signature under which `replace` is registered: three strings, and
      any number of further strings. */
  const ReplaceSignature: Signature := Signature([StringType, StringType, StringType], Some(StringType))

  /** The arity check: exactly the fixed arguments, or at least them when
      the signature is variadic. */
  predicate ArityFits(count: nat, sig: Signature) {
    if sig.variadic.Some? then count >= |sig.inputs| else count == |sig.inputs|
  }

  /** The argument at position `i` has the type the signature gives that
      position: a fixed type, or the variadic type after the fixed ones. */
  predicate ArgumentFits(sig: Signature, i: nat, v: Variable) {
    if i < |sig.inputs| then HasType(v, sig.inputs[i])
    else sig.variadic.Some? && HasType(v, sig.variadic.value)
  }

  /** Argument lists the runtime lets through to a function with `sig`. */
  predicate Conforms(args: seq<Variable>, sig: Signature) {
    ArityFits(|args|, sig) && forall i :: 0 <= i < |args| ==> ArgumentFits(sig, i, args[i])
  }

  /** The `replace` callback. Its three `as_string().unwrap()` calls cannot
      fail under the registered signature, arguments after the third are not
      read, and it always yields a string. */
  function ReplaceFunction(args: seq<Variable>): (r: Variable)
    requires Conforms(args, ReplaceSignature)
    ensures r.String?
    ensures |r.s| == |args[0].s| + Count(args[0].s, args[1].s) * (|args[2].s| - |args[1].s|)
  {
    assert ArgumentFits(ReplaceSignature, 0, args[0]);
    assert ArgumentFits(ReplaceSignature, 1, args[1]);
    assert ArgumentFits(ReplaceSignature, 2, args[2]);
    ReplaceLength(args[0].s, args[1].s, args[2].s);
    String(Replace(args[0].s, args[1].s, args[2].s))
  }

  /** Why the runtime refuses a call before reaching the callback. */
  datatype CallError = WrongArity(expected: nat, actual: nat) | WrongType(position: nat)

  /** The first argument, from `from` on, that does not fit the signature. */
  function FirstMismatch(args: seq<Variable>, sig: Signature, from: nat): (k: nat)
    requires from <= |args|
    requires exists i :: from <= i < |args| && !ArgumentFits(sig, i, args[i])
    ensures from <= k < |args| && !ArgumentFits(sig, k, args[k])
    ensures forall i :: from <= i < k ==> ArgumentFits(sig, i, args[i])
    decreases |args| - from
  {
    if !ArgumentFits(sig, from, args[from]) then from else FirstMismatch(args, sig, from + 1)
  }

  /** A call of `replace` through the runtime: the signature is checked
      (arity first, then each argument in order), then the callback runs. */
  function CallReplace(args: seq<Variable>): (r: Result<Variable, CallError>)
    ensures r.Ok? <==> Conforms(args, ReplaceSignature)
    ensures (r.Err? && r.error.WrongArity?) <==> |args| < 3
    ensures r.Ok? ==> r.value.String? && r.value.s == Replace(args[0].s, args[1].s, args[2].s)
  {
    var sig := ReplaceSignature;
    if !ArityFits(|args|, sig) then Err(WrongArity(|sig.inputs|, |args|))
    else if exists i :: 0 <= i < |args| && !ArgumentFits(sig, i, args[i]) then
      Err(WrongType(FirstMismatch(args, sig, 0)))
    else Ok(ReplaceFunction(args))
  }

  /** Extra string arguments are accepted and ignored: a call with more than
      three strings gives what the call with the first three gives. */
  lemma ExtraArgumentsIgnored(args: seq<Variable>)
    requires |args| >= 3 && forall i :: 0 <= i < |args| ==> args[i].String?
    ensures CallReplace(args).Ok?
    ensures CallReplace(args) == CallReplace(args[..3])
  {
    assert Conforms(args, ReplaceSignature) by {
      forall i | 0 <= i < |args| ensures ArgumentFits(ReplaceSignature, i, args[i]) {
        assert args[i].String?;
      }
    }
    var first := args[..3];
    assert Conforms(first, ReplaceSignature) by {
      forall i | 0 <= i < 3 ensures ArgumentFits(ReplaceSignature, i, first[i]) {
        assert first[i] == args[i];
      }
    }
  }

  /** The source's test vector called with a fourth, ignored string. */
  lemma ExtraArgumentExample()
    ensures CallReplace([String("foo baz foo"), String("foo"), String("bar"), String("x")])
            == Ok(String("bar baz bar"))
  {
    var args := [String("foo baz foo"), String("foo"), String("bar"), String("x")];
    ExtraArgumentsIgnored(args);
    ReplaceTestVector();
  }
}
