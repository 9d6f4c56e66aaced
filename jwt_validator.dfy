/**
 * `JWTValidator`: accepts a token matching `^[A-Za-z0-9-_=]+\.[A-Za-z0-9-_=]+\.?[A-Za-z0-9-_.+/=]*$`.
 * The pattern is modelled twice: by its regex structure (`MatchesPattern`) and by a
 * left-to-right automaton (`Run`), proved to agree.
 */
module JwtValidation {
  import opened StringExtension
  import opened ValidationErrors
  import opened ValidationResults

  const DefaultMessage := "JWT validation failed!"

  datatype JwtValidator = JwtValidator(message: string)

  /** `init(message:)` with its default argument. */
  function DefaultValidator(): (v: JwtValidator)
    ensures v.message == DefaultMessage
  {
    JwtValidator(DefaultMessage)
  }

  /** `[A-Za-z0-9-_=]`. */
  predicate InSegment(c: char) { IsAsciiLetter(c) || IsDecimalDigit(c) || c == '-' || c == '_' || c == '=' }

  /** `[A-Za-z0-9-_.+/=]`, the class of the trailing part. */
  predicate InTail(c: char) { InSegment(c) || c == '.' || c == '+' || c == '/' }

  /**
   * The regex split: `s[..i]` is the first `[...]+`, `s[i]` the dot, `s[i+1..j]` the second
   * `[...]+`, `s[j..k]` the optional dot and `s[k..]` the trailing `[...]*`.
   */
  ghost predicate RegexSplit(s: string, i: int, j: int, k: int)
  {
    1 <= i && i + 1 < j && j <= k <= j + 1 && k <= |s|
    && (forall n :: 0 <= n < i ==> InSegment(s[n]))
    && s[i] == '.'
    && (forall n :: i + 1 <= n < j ==> InSegment(s[n]))
    && (k == j + 1 ==> s[j] == '.')
    && (forall n :: k <= n < |s| ==> InTail(s[n]))
  }

  /** The whole of `s` matches the pattern between `^` and the end of the input. */
  ghost predicate MatchesPattern(s: string)
  {
    exists i, j, k :: RegexSplit(s, i, j, k)
  }

  /** The pattern with its first dot at `i`, in its simplest form. */
  ghost predicate CoreAt(s: string, i: int)
  {
    1 <= i && i + 2 <= |s|
    && (forall n :: 0 <= n < i ==> InSegment(s[n]))
    && s[i] == '.' && InSegment(s[i + 1])
    && (forall n :: i + 2 <= n < |s| ==> InTail(s[n]))
  }

  lemma PatternIffCore(s: string)
    ensures MatchesPattern(s) <==> exists i :: CoreAt(s, i)
  {
    if MatchesPattern(s) {
      var i, j, k :| RegexSplit(s, i, j, k);
      assert CoreAt(s, i);
    }
    if i :| CoreAt(s, i) {
      assert RegexSplit(s, i, i + 2, i + 2);
    }
  }

  /** The states of the recogniser. */
  datatype State = Start | Header | AfterDot | Body | Dead

  function Step(q: State, c: char): State
  {
    match q
    case Start => if InSegment(c) then Header else Dead
    case Header => if InSegment(c) then Header else if c == '.' then AfterDot else Dead
    case AfterDot => if InSegment(c) then Body else Dead
    case Body => if InTail(c) then Body else Dead
    case Dead => Dead
  }

  /** The state after reading all of `s`. */
  function Run(s: string): State
  {
    if s == [] then Start else Step(Run(s[..|s| - 1]), s[|s| - 1])
  }

  predicate AllInSegment(s: string) { forall n :: 0 <= n < |s| ==> InSegment(s[n]) }

  /** What each state of the recogniser means about the input read so far. */
  lemma {:induction false} RunMeaning(s: string)
    ensures Run(s) == Start <==> s == []
    ensures Run(s) == Header <==> s != [] && AllInSegment(s)
    ensures Run(s) == AfterDot <==> |s| >= 2 && s[|s| - 1] == '.' && AllInSegment(s[..|s| - 1])
    ensures Run(s) == Body <==> exists i :: CoreAt(s, i)
    decreases |s|
  {
    if s == [] {
      assert !CoreAt(s, 0);
      return;
    }
    var p, c := s[..|s| - 1], s[|s| - 1];
    assert s == p + [c];
    RunMeaning(p);
    assert forall n :: 0 <= n < |p| ==> p[n] == s[n];
    if Run(p) == AfterDot && InSegment(c) {
      assert CoreAt(s, |p| - 1);
    }
    if Run(p) == Body {
      var i :| CoreAt(p, i);
      if InTail(c) {
        assert CoreAt(s, i);
      }
    }
    if i :| CoreAt(s, i) {
      assert c != '.' || i + 2 < |s|;
      if i + 2 == |s| {
        assert p[..|p| - 1] == s[..i];
        assert Run(p) == AfterDot;
      } else {
        assert CoreAt(p, i);
      }
    }
    if Run(s) == Header {
      assert Run(p) == Start || Run(p) == Header;
    }
    if Run(s) == AfterDot {
      assert Run(p) == Header;
    }
  }

  /** The recogniser accepts exactly the strings matching the pattern. */
  lemma RunRecognisesPattern(s: string)
    ensures Run(s) == Body <==> MatchesPattern(s)
  {
    RunMeaning(s);
    PatternIffCore(s);
  }

  /** Matching the pattern requires a dot after a non-empty first segment, and nothing outside the tail class. */
  lemma PatternNecessities(s: string)
    requires MatchesPattern(s)
    ensures |s| >= 3 && InSegment(s[0]) && '.' in s
    ensures forall n :: 0 <= n < |s| ==> InTail(s[n])
  {
    var i, j, k :| RegexSplit(s, i, j, k);
  }

  /** A line terminator as ICU's `$` recognises it. */
  predicate IsLineTerminator(c: char)
  {
    c == '\n' || c == '\U{B}' || c == '\U{C}' || c == '\r' || c == '\U{85}' || c == '\U{2028}' || c == '\U{2029}'
  }

  /**
   * ICU's `$` without the multiline option matches at the end of the input and also before a
   * line terminator (or a CRLF pair) that ends it; stated on the pattern.
   */
  ghost predicate MatchesWithIcuDollar(s: string)
  {
    MatchesPattern(s)
    || (|s| >= 1 && IsLineTerminator(s[|s| - 1]) && MatchesPattern(s[..|s| - 1]))
    || (|s| >= 2 && s[|s| - 2..] == "\r\n" && MatchesPattern(s[..|s| - 2]))
  }

  /** The same three ways to match, decided by the recogniser. */
  predicate MatchesAsWritten(s: string)
  {
    Run(s) == Body
    || (|s| >= 1 && IsLineTerminator(s[|s| - 1]) && Run(s[..|s| - 1]) == Body)
    || (|s| >= 2 && s[|s| - 2..] == "\r\n" && Run(s[..|s| - 2]) == Body)
  }

  /** The recogniser decides ICU's `$` semantics of the pattern. */
  lemma AsWrittenMeaning(s: string)
    ensures MatchesAsWritten(s) <==> MatchesWithIcuDollar(s)
  {
    RunRecognisesPattern(s);
    if |s| >= 1 { RunRecognisesPattern(s[..|s| - 1]); }
    if |s| >= 2 { RunRecognisesPattern(s[..|s| - 2]); }
  }

  /** The number of CRLF pairs in `s`; Swift counts each pair as a single `Character`. */
  function CrlfPairs(s: string): (n: nat)
    ensures n <= |s|
    ensures (forall i :: 0 <= i < |s| ==> s[i] != '\r') ==> n == 0
  {
    if |s| < 2 then 0
    else (if s[0] == '\r' && s[1] == '\n' then 1 else 0) + CrlfPairs(s[1..])
  }

  /**
   * The part of `jwt` that `NSRange(location: 0, length: jwt.count)` covers: `jwt.count` counts
   * `Character`s while the range counts UTF-16 units, so every CRLF pair cuts one unit off the end.
   */
  function SearchedRange(jwt: string): (r: string)
    ensures |r| == |jwt| - CrlfPairs(jwt) && r == jwt[..|r|]
    ensures (forall i :: 0 <= i < |jwt| ==> jwt[i] != '\r') ==> r == jwt
  {
    jwt[..|jwt| - CrlfPairs(jwt)]
  }

  /** `validate(_:)` as written: ICU's `$`, on the range the app passes. */
  function ValidateAsWritten(v: JwtValidator, jwt: string): (r: ValidationResult)
    ensures r == Success <==> MatchesWithIcuDollar(SearchedRange(jwt))
    ensures MatchesPattern(jwt) ==> r == Success
    ensures r.Failure? ==> r.error == FromMessage(v.message)
  {
    AsWrittenMeaning(SearchedRange(jwt));
    PatternImpliesNoCr(jwt);
    if MatchesAsWritten(SearchedRange(jwt)) then Success else Failure(FromMessage(v.message))
  }

  /** A matching token holds no carriage return, so the app searches all of it. */
  lemma PatternImpliesNoCr(s: string)
    ensures MatchesPattern(s) ==> SearchedRange(s) == s
  {
    if MatchesPattern(s) {
      PatternNecessities(s);
      assert forall i :: 0 <= i < |s| ==> s[i] != '\r' by {
        forall i | 0 <= i < |s| ensures s[i] != '\r' {
          assert InTail(s[i]);
        }
      }
    }
  }

  /** The validator as written accepts a token followed by a newline, which the pattern excludes. */
  lemma TrailingNewlineAccepted(v: JwtValidator)
    ensures ValidateAsWritten(v, "a.b\n") == Success
    ensures !MatchesPattern("a.b\n")
  {
    var s := "a.b\n";
    assert SearchedRange(s) == s;
    assert s[..|s| - 1] == "a.b";
    assert CoreAt("a.b", 1);
    PatternIffCore("a.b");
    if MatchesPattern(s) {
      PatternNecessities(s);
    }
  }

  /** A CRLF pair shortens the searched range, so whatever follows it is never looked at. */
  lemma CrlfTailIgnored(v: JwtValidator)
    ensures ValidateAsWritten(v, "a.b\r\nX") == Success
    ensures !MatchesPattern("a.b\r\nX")
  {
    var s := "a.b\r\nX";
    var searched := "a.b\r\n";
    assert CrlfPairs(s[4..]) == 0;
    assert CrlfPairs(s[3..]) == 1;
    assert CrlfPairs(s[2..]) == 1;
    assert CrlfPairs(s[1..]) == 1;
    assert SearchedRange(s) == searched;
    assert searched[..|searched| - 2] == "a.b";
    assert CoreAt("a.b", 1);
    PatternIffCore("a.b");
    if MatchesPattern(s) {
      PatternNecessities(s);
    }
  }

  /** `validate(_:)` with `$` anchored at the very end of the input. */
  function Validate(v: JwtValidator, jwt: string): (r: ValidationResult)
    ensures r == Success <==> MatchesPattern(jwt)
    ensures r.Failure? ==> r.error == FromMessage(v.message)
  {
    RunRecognisesPattern(jwt);
    if Run(jwt) == Body then Success else Failure(FromMessage(v.message))
  }

  /** A three-part token and a two-part token are accepted; an empty one and one without a dot are not. */
  lemma ValidateExamples(v: JwtValidator)
    ensures Validate(v, "ab.cd.ef") == Success
    ensures Validate(v, "ab.cd") == Success
    ensures Validate(v, "").Failure?
    ensures Validate(v, "abc").Failure?
    ensures Validate(v, ".ab").Failure?
  {
    assert CoreAt("ab.cd.ef", 2);
    assert CoreAt("ab.cd", 2);
    PatternIffCore("ab.cd.ef");
    PatternIffCore("ab.cd");
    if MatchesPattern("abc") { PatternNecessities("abc"); }
    if MatchesPattern(".ab") { PatternNecessities(".ab"); }
    if MatchesPattern("") { PatternNecessities(""); }
  }

  /** Whatever the corrected validator accepts, the validator as written accepts too. */
  lemma AsWrittenAcceptsMore(v: JwtValidator, jwt: string)
    ensures Validate(v, jwt) == Success ==> ValidateAsWritten(v, jwt) == Success
  {
  }
}
