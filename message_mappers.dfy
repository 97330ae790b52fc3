/**
 * Helpers of the connectivity payload-mapping layer: extracting the charset
 * from a Content-Type value, and choosing the message mapper for a mapping
 * engine name.
 */
module MessageMappers {
  import opened Wrappers

  // ---------------------------------------------------------------------
  // determineCharset
  // ---------------------------------------------------------------------

  /** A character set, named by its canonical name. */
  datatype Charset = Charset(name: string)

  /** The fallback charset. */
  const UTF_8: Charset := Charset("UTF-8")

  /** The IllegalCharsetNameException the Java platform throws for a malformed charset name. */
  datatype CharsetError = IllegalCharsetName(name: string)

  /** The literal part of the pattern `;.?charset=`. */
  const CharsetKeyword: string := "charset="

  /** Characters that a Java regular-expression `.` does not match (no DOTALL, no UNIX_LINES). */
  predicate IsLineTerminator(c: char) {
    c == '\n' || c == '\r' || c == '\U{0085}' || c == '\U{2028}' || c == '\U{2029}'
  }

  /** `w` occurs in `s` starting at index `k`. */
  predicate OccursAt(s: string, k: nat, w: string) {
    k + |w| <= |s| && s[k..k + |w|] == w
  }

  /**
   * A string the pattern `;.?charset=` matches as a whole: a semicolon,
   * at most one character that is not a line terminator, then `charset=`.
   */
  predicate IsPatternMatch(t: string) {
    && (|t| == 9 || |t| == 10)
    && t[0] == ';'
    && t[|t| - 8..] == CharsetKeyword
    && (|t| == 10 ==> !IsLineTerminator(t[1]))
  }

  /**
   * The end of the match of `;.?charset=` that starts at `i`, if there is
   * one. The optional character is greedy, so the one-character form is
   * tried before the empty one, as a backtracking matcher does.
   */
  function MatchAt(s: string, i: nat): (r: Option<nat>)
    ensures r.Some? ==> i < r.value <= |s| && IsPatternMatch(s[i..r.value])
    ensures r.None? ==> forall j :: i <= j <= |s| ==> !IsPatternMatch(s[i..j])
  {
    if i < |s| && s[i] == ';' then
      if i + 1 < |s| && !IsLineTerminator(s[i + 1]) && OccursAt(s, i + 2, CharsetKeyword) then
        Some(i + 2 + |CharsetKeyword|)
      else if OccursAt(s, i + 1, CharsetKeyword) then
        Some(i + 1 + |CharsetKeyword|)
      else
        None
    else
      None
  }

  /** The first match of the pattern at or after index `from`, as (start, end). */
  function FindFrom(s: string, from: nat): (r: Option<(nat, nat)>)
    requires from <= |s|
    decreases |s| - from
    ensures r.Some? ==> from <= r.value.0 < r.value.1 <= |s| && MatchAt(s, r.value.0) == Some(r.value.1)
    ensures r.Some? ==> forall j :: from <= j < r.value.0 ==> MatchAt(s, j).None?
    ensures r.None? ==> forall j :: from <= j <= |s| ==> MatchAt(s, j).None?
  {
    if from == |s| then None
    else if MatchAt(s, from).Some? then Some((from, MatchAt(s, from).value))
    else FindFrom(s, from + 1)
  }

  /**
   * `CHARSET_PATTERN.split(contentType, 2)`: with a limit of two, the input
   * is split at the first match only; without a match it is returned whole.
   */
  function SplitAtFirstMatch(s: string): (parts: seq<string>)
    ensures |parts| == 1 || |parts| == 2
    ensures |parts| == 1 <==> forall j :: 0 <= j <= |s| ==> MatchAt(s, j).None?
    ensures |parts| == 1 ==> parts[0] == s
    ensures |parts| == 2 ==>
      && |parts[0]| + |parts[1]| < |s|
      && MatchAt(s, |parts[0]|) == Some(|s| - |parts[1]|)
      && parts[0] == s[..|parts[0]|]
      && parts[1] == s[|s| - |parts[1]|..]
      && (forall j :: 0 <= j < |parts[0]| ==> MatchAt(s, j).None?)
  {
    match FindFrom(s, 0)
    case None => [s]
    case Some((a, b)) => [s[..a], s[b..]]
  }

  /** The charset name the Content-Type names: everything after the first match, if there is one. */
  function CharsetCandidate(contentType: string): (name: Option<string>)
    ensures name.None? <==> forall j :: 0 <= j <= |contentType| ==> MatchAt(contentType, j).None?
    ensures name.Some? ==>
      && |name.value| < |contentType|
      && name.value == contentType[|contentType| - |name.value|..]
  {
    var parts := SplitAtFirstMatch(contentType);
    if |parts| == 2 then Some(parts[1]) else None
  }

  /**
   * The Java platform's rule for legal charset names: non-empty; ASCII
   * letters and digits anywhere; `-`, `+`, `:`, `_` and `.` anywhere but
   * first. So a legal name holds no semicolon and no blank.
   */
  predicate LegalCharsetName(name: string)
    ensures LegalCharsetName(name) ==>
      forall i :: 0 <= i < |name| ==> name[i] != ';' && !IsBlank(name[i])
  {
    && |name| > 0
    && forall i :: 0 <= i < |name| ==> LegalNameChar(name[i], i == 0)
  }

  predicate LegalNameChar(c: char, first: bool) {
    || ('A' <= c <= 'Z') || ('a' <= c <= 'z') || ('0' <= c <= '9')
    || (!first && (c == '-' || c == '+' || c == ':' || c == '_' || c == '.'))
  }

  /** The platform knows only charsets under legal names. */
  ghost predicate WellFormedRegistry(registry: string -> Option<Charset>) {
    forall name :: registry(name).Some? ==> LegalCharsetName(name)
  }

  /**
   * `Charset.isSupported(name)`: `registry` stands for the charsets the
   * platform provides. A known name is supported; an unknown name is
   * checked for legality and is either unsupported or raises
   * IllegalCharsetNameException.
   */
  function IsSupported(name: string, registry: string -> Option<Charset>): (r: Result<bool, CharsetError>)
    ensures r == Success(true) <==> registry(name).Some?
    ensures r.Failure? <==> registry(name).None? && !LegalCharsetName(name)
    ensures r.Failure? ==> r.error == IllegalCharsetName(name)
  {
    if registry(name).Some? then Success(true)
    else if LegalCharsetName(name) then Success(false)
    else Failure(IllegalCharsetName(name))
  }

  /**
   * `determineCharset(contentType)` as written: a null Content-Type, one
   * without a charset parameter, or one naming an unsupported charset
   * yields UTF-8; a supported name yields that charset; a candidate that is
   * not a legal charset name makes `Charset.isSupported` throw.
   */
  function DetermineCharset(contentType: Option<string>, registry: string -> Option<Charset>)
    : (r: Result<Charset, CharsetError>)
    ensures contentType.None? ==> r == Success(UTF_8)
    ensures contentType.Some? && CharsetCandidate(contentType.value).None? ==> r == Success(UTF_8)
    ensures contentType.Some? && CharsetCandidate(contentType.value).Some? ==>
      var name := CharsetCandidate(contentType.value).value;
      && (registry(name).Some? ==> r == Success(registry(name).value))
      && (registry(name).None? && LegalCharsetName(name) ==> r == Success(UTF_8))
      && (registry(name).None? && !LegalCharsetName(name) ==> r == Failure(IllegalCharsetName(name)))
  {
    match contentType
    case None => Success(UTF_8)
    case Some(ct) =>
      var parts := SplitAtFirstMatch(ct);
      if |parts| == 2 then
        match IsSupported(parts[1], registry)
        case Failure(e) => Failure(e)
        case Success(supported) =>
          if supported then Success(registry(parts[1]).value) else Success(UTF_8)
      else
        Success(UTF_8)
  }

  /** Without any match of the pattern, the result is UTF-8 whatever the platform provides. */
  lemma NoCharsetParameterMeansUtf8(contentType: string, registry: string -> Option<Charset>)
    requires forall j :: 0 <= j < |contentType| ==> MatchAt(contentType, j).None?
    ensures DetermineCharset(Some(contentType), registry) == Success(UTF_8)
  {
    assert MatchAt(contentType, |contentType|).None?;
  }

  /** A match of the pattern in `s[k..]` is a match in `s`, shifted by `k`, and back. */
  lemma MatchAtShift(s: string, k: nat, j: nat)
    requires k <= |s|
    ensures MatchAt(s[k..], j).Some? <==> MatchAt(s, k + j).Some?
    ensures MatchAt(s[k..], j).Some? ==> MatchAt(s[k..], j).value + k == MatchAt(s, k + j).value
  {
    var t := s[k..];
    if j + 2 + |CharsetKeyword| <= |t| {
      assert t[j + 2..j + 2 + |CharsetKeyword|] == s[k + j + 2..k + j + 2 + |CharsetKeyword|];
    }
    if j + 1 + |CharsetKeyword| <= |t| {
      assert t[j + 1..j + 1 + |CharsetKeyword|] == s[k + j + 1..k + j + 1 + |CharsetKeyword|];
    }
  }

  /**
   * With a split limit of two, later matches of the pattern are not split
   * off: each of them is still a match inside the candidate name.
   */
  lemma LaterMatchesStayInCandidate(contentType: string, j: nat)
    requires CharsetCandidate(contentType).Some?
    requires |contentType| - |CharsetCandidate(contentType).value| <= j
    requires MatchAt(contentType, j).Some?
    ensures MatchAt(CharsetCandidate(contentType).value, j - (|contentType| - |CharsetCandidate(contentType).value|)).Some?
  {
    var name := CharsetCandidate(contentType).value;
    var k := |contentType| - |name|;
    assert name == contentType[k..];
    MatchAtShift(contentType, k, j - k);
    assert MatchAt(contentType[k..], j - k).Some?;
  }

  /** The candidate is exactly what follows the first match, which starts at the first semicolon able to begin one. */
  lemma CandidateFollowsFirstMatch(contentType: string, a: nat)
    requires MatchAt(contentType, a).Some?
    requires forall j :: 0 <= j < a ==> MatchAt(contentType, j).None?
    ensures CharsetCandidate(contentType) == Some(contentType[MatchAt(contentType, a).value..])
  {
    var parts := SplitAtFirstMatch(contentType);
    assert |parts| == 2;
  }

  // ---------------------------------------------------------------------
  // A discrepancy: a Content-Type with a parameter after the charset
  // ---------------------------------------------------------------------

  /** A common Content-Type with a second parameter after the charset. */
  const PlainTextPrefix: string := "text/plain; " + CharsetKeyword

  const FlowedText: string := PlainTextPrefix + "UTF-8; format=flowed"

  /**
   * As written, everything after `charset=` becomes the name, here
   * "UTF-8; format=flowed", which is not a legal charset name, so
   * `determineCharset` throws instead of returning a charset.
   */
  lemma TrailingParameterThrows(registry: string -> Option<Charset>)
    requires WellFormedRegistry(registry)
    ensures DetermineCharset(Some(FlowedText), registry) == Failure(IllegalCharsetName("UTF-8; format=flowed"))
  {
    PlainTextCandidate("UTF-8; format=flowed");
    FlowedTextNameIsIllegal();
  }

  /** For "text/plain; charset=" followed by anything, the candidate is everything after `charset=`. */
  lemma PlainTextCandidate(rest: string)
    ensures CharsetCandidate(PlainTextPrefix + rest) == Some(rest)
  {
    var s := PlainTextPrefix + rest;
    assert s[11] == ' ';
    assert s[12..20] == CharsetKeyword;
    assert s[20..] == rest;
    assert MatchAt(s, 10) == Some(20);
    forall j | 0 <= j < 10 ensures MatchAt(s, j).None? {
      assert s[j] != ';';
    }
    CandidateFollowsFirstMatch(s, 10);
  }

  /** A semicolon makes a charset name illegal. */
  lemma FlowedTextNameIsIllegal()
    ensures !LegalCharsetName("UTF-8; format=flowed")
  {
    var name := "UTF-8; format=flowed";
    assert !LegalNameChar(name[5], false);
  }

  /** Optional whitespace around a parameter value, as section 3.2.3 of RFC 7230 allows it. */
  predicate IsBlank(c: char) {
    c == ' ' || c == '\t'
  }

  /** The part of `s` before its first semicolon, where the next parameter would start. */
  function UpToSemicolon(s: string): (r: string)
    ensures |r| <= |s| && r == s[..|r|]
    ensures forall i :: 0 <= i < |r| ==> r[i] != ';'
    ensures |r| < |s| ==> s[|r|] == ';'
  {
    if s == [] || s[0] == ';' then [] else [s[0]] + UpToSemicolon(s[1..])
  }

  /** `s` without its leading blanks. */
  function TrimStart(s: string): (r: string)
    ensures |r| <= |s| && r == s[|s| - |r|..]
    ensures forall i :: 0 <= i < |s| - |r| ==> IsBlank(s[i])
    ensures r != [] ==> !IsBlank(r[0])
  {
    if s != [] && IsBlank(s[0]) then
      var r := TrimStart(s[1..]);
      assert s[1..][|s| - 1 - |r|..] == s[|s| - |r|..];
      assert forall i :: 1 <= i < |s| - |r| ==> s[i] == s[1..][i - 1];
      r
    else
      s
  }

  /** `s` without its trailing blanks. */
  function TrimEnd(s: string): (r: string)
    ensures |r| <= |s| && r == s[..|r|]
    ensures forall i :: |r| <= i < |s| ==> IsBlank(s[i])
    ensures r != [] ==> !IsBlank(r[|r| - 1])
  {
    if s != [] && IsBlank(s[|s| - 1]) then
      var r := TrimEnd(s[..|s| - 1]);
      assert s[..|s| - 1][..|r|] == s[..|r|];
      assert forall i :: |r| <= i < |s| - 1 ==> s[i] == s[..|s| - 1][i];
      r
    else
      s
  }

  /** The value of the charset parameter: the candidate up to the next parameter, without surrounding blanks. */
  function CharsetValue(candidate: string): (v: string)
    ensures forall i :: 0 <= i < |v| ==> v[i] != ';'
    ensures v != [] ==> !IsBlank(v[0]) && !IsBlank(v[|v| - 1])
  {
    TrimEnd(TrimStart(UpToSemicolon(candidate)))
  }

  /** A name starting with an ASCII letter and made of ASCII letters, digits and `-` is legal. */
  lemma AsciiNameIsLegal(name: string)
    requires |name| > 0 && ('A' <= name[0] <= 'Z')
    requires forall i :: 0 <= i < |name| ==> ('A' <= name[i] <= 'Z') || ('0' <= name[i] <= '9') || name[i] == '-'
    ensures LegalCharsetName(name)
  {
  }

  /** "UTF-8" is a legal charset name. */
  lemma Utf8NameIsLegal()
    ensures LegalCharsetName("UTF-8")
  {
    AsciiNameIsLegal("UTF-8");
  }

  /** "ISO-8859-1" is a legal charset name. */
  lemma IsoNameIsLegal()
    ensures LegalCharsetName("ISO-8859-1")
  {
    AsciiNameIsLegal("ISO-8859-1");
  }

  /** A legal charset name is its own parameter value. */
  lemma LegalNameIsOwnValue(name: string)
    requires LegalCharsetName(name)
    ensures CharsetValue(name) == name
  {
    var u := UpToSemicolon(name);
    assert u == name;
    assert TrimStart(u) == u;
  }

  /** A legal charset name followed by further parameters is cut off before them. */
  lemma ValueEndsAtNextParameter(name: string, rest: string)
    requires LegalCharsetName(name)
    ensures CharsetValue(name + ";" + rest) == name
  {
    var s := name + ";" + rest;
    var u := UpToSemicolon(s);
    assert s[|name|] == ';';
    assert forall i :: 0 <= i < |name| ==> s[i] == name[i];
    assert u == s[..|name|] == name;
    LegalNameIsOwnValue(name);
  }

  /**
   * `determineCharset` corrected: the charset parameter's value ends at the
   * next parameter and loses surrounding blanks before it is looked up; a
   * value the platform does not know, legal or not, falls back to UTF-8, so
   * nothing is thrown.
   */
  function DetermineCharsetOrUtf8(contentType: Option<string>, registry: string -> Option<Charset>)
    : (r: Charset)
    ensures r != UTF_8 ==>
              && contentType.Some? && CharsetCandidate(contentType.value).Some?
              && registry(CharsetValue(CharsetCandidate(contentType.value).value)) == Some(r)
    ensures contentType.Some? && CharsetCandidate(contentType.value).Some?
            && registry(CharsetValue(CharsetCandidate(contentType.value).value)).Some? ==>
              r == registry(CharsetValue(CharsetCandidate(contentType.value).value)).value
  {
    match contentType
    case None => UTF_8
    case Some(ct) =>
      match CharsetCandidate(ct)
      case None => UTF_8
      case Some(candidate) =>
        var name := CharsetValue(candidate);
        if registry(name).Some? then registry(name).value else UTF_8
  }

  /** Wherever the original returns a charset, the corrected version returns the same one. */
  lemma CorrectionAgreesWhereOriginalReturns(contentType: Option<string>, registry: string -> Option<Charset>)
    requires WellFormedRegistry(registry)
    requires DetermineCharset(contentType, registry).Success?
    ensures DetermineCharsetOrUtf8(contentType, registry) == DetermineCharset(contentType, registry).value
  {
    if contentType.Some? && CharsetCandidate(contentType.value).Some? {
      var candidate := CharsetCandidate(contentType.value).value;
      assert registry(candidate).Some? || LegalCharsetName(candidate);
      LegalNameIsOwnValue(candidate);
    }
  }

  /**
   * The corrected version answers the Content-Type that made the original
   * throw with the named charset, UTF-8, or with the fallback UTF-8.
   */
  lemma TrailingParameterFallsBack(registry: string -> Option<Charset>)
    ensures registry("UTF-8").Some? ==> DetermineCharsetOrUtf8(Some(FlowedText), registry) == registry("UTF-8").value
    ensures registry("UTF-8").None? ==> DetermineCharsetOrUtf8(Some(FlowedText), registry) == UTF_8
  {
    FlowedTextValue();
  }

  /** The charset value of `FlowedText` is "UTF-8". */
  lemma FlowedTextValue()
    ensures CharsetCandidate(FlowedText).Some?
    ensures CharsetValue(CharsetCandidate(FlowedText).value) == "UTF-8"
  {
    var name, rest := "UTF-8", " format=flowed";
    assert "UTF-8; format=flowed" == name + ";" + rest;
    PlainTextCandidate(name + ";" + rest);
    Utf8NameIsLegal();
    ValueEndsAtNextParameter(name, rest);
  }

  /** A charset other than UTF-8 followed by another parameter is honoured by the corrected version. */
  lemma NamedCharsetBeforeParameterIsHonoured(registry: string -> Option<Charset>)
    requires registry("ISO-8859-1").Some?
    ensures DetermineCharsetOrUtf8(Some(PlainTextPrefix + "ISO-8859-1; format=flowed"), registry)
         == registry("ISO-8859-1").value
  {
    IsoTextValue();
  }

  /** The charset value of the ISO-8859-1 example is "ISO-8859-1". */
  lemma IsoTextValue()
    ensures CharsetCandidate(PlainTextPrefix + "ISO-8859-1; format=flowed").Some?
    ensures CharsetValue(CharsetCandidate(PlainTextPrefix + "ISO-8859-1; format=flowed").value) == "ISO-8859-1"
  {
    var name, rest := "ISO-8859-1", " format=flowed";
    assert "ISO-8859-1; format=flowed" == name + ";" + rest;
    PlainTextCandidate(name + ";" + rest);
    IsoNameIsLegal();
    ValueEndsAtNextParameter(name, rest);
  }

  // ---------------------------------------------------------------------
  // apply / createAnyMessageMapper
  // ---------------------------------------------------------------------

  /**
   * `Character.toUpperCase` on the characters that matter when comparing
   * with ASCII letters: ASCII lower-case letters, dotless i and long s.
   */
  function UpperCase(c: char): (u: char)
    ensures 'a' <= c <= 'z' ==> 'A' <= u <= 'Z' && u as int == c as int - 32
  {
    if 'a' <= c <= 'z' then (c as int - 32) as char
    else if c == '\U{0131}' then 'I'
    else if c == '\U{017F}' then 'S'
    else c
  }

  /**
   * `Character.toLowerCase` on the characters that matter when comparing
   * with ASCII letters: ASCII upper-case letters, capital I with dot above
   * and the Kelvin sign.
   */
  function LowerCase(c: char): (l: char)
    ensures 'A' <= c <= 'Z' ==> 'a' <= l <= 'z' && l as int == c as int + 32
  {
    if 'A' <= c <= 'Z' then (c as int + 32) as char
    else if c == '\U{0130}' then 'i'
    else if c == '\U{212A}' then 'k'
    else c
  }

  /**
   * Two characters are equal ignoring case as `String.equalsIgnoreCase`
   * compares them. With the partial case mappings above this is exact when
   * one of the characters is ASCII, the only way it is used here.
   */
  predicate CharEqualsIgnoreCase(c1: char, c2: char) {
    || c1 == c2
    || UpperCase(c1) == UpperCase(c2)
    || LowerCase(UpperCase(c1)) == LowerCase(UpperCase(c2))
  }

  /**
   * `String.equalsIgnoreCase`: same length and equal ignoring case position
   * by position; exact when one of the strings is ASCII.
   */
  predicate EqualsIgnoreCase(a: string, b: string)
    ensures a == b ==> EqualsIgnoreCase(a, b)
    ensures EqualsIgnoreCase(a, b) ==> |a| == |b|
  {
    |a| == |b| && forall i :: 0 <= i < |a| ==> CharEqualsIgnoreCase(a[i], b[i])
  }

  /** The mapping engine name that selects the built-in script mapper. */
  const JavaScriptEngine: string := "javascript"

  /** The engine name equals "javascript" ignoring case. */
  predicate IsJavaScriptEngine(engine: string)
    ensures IsJavaScriptEngine(engine) ==> |engine| == |JavaScriptEngine|
    ensures engine == JavaScriptEngine ==> IsJavaScriptEngine(engine)
  {
    EqualsIgnoreCase(JavaScriptEngine, engine)
  }

  /** The failures dynamic class instantiation can report. */
  datatype Throwable =
    | ClassNotFound
    | InstantiationFailure
    | ClassCastFailure
    | OtherThrowable(typeName: string)

  /** The outcome of `DynamicAccess.createInstanceFor(className, ...)`. */
  datatype Instantiation<M> = Instance(mapper: M) | Failed(cause: Throwable)

  /** A mapper: the built-in script mapper, or an instance of a class found by name. */
  datatype MessageMapper<M> = JavaScriptMapper | DynamicMapper(instance: M)

  /** The IllegalStateException raised for an unexpected instantiation failure. */
  datatype MappingError = IllegalState(message: string, cause: Throwable)

  /** The failures for which no mapper (null) is returned instead of an error. */
  predicate IsExpectedFailure(t: Throwable) {
    t == ClassNotFound || t == InstantiationFailure || t == ClassCastFailure
  }

  /**
   * `createAnyMessageMapper(className, dynamicAccess)`: the instance if the
   * class could be instantiated; absent (null) for a missing class, a
   * failed instantiation or a class that is no message mapper; an
   * IllegalStateException naming the class for any other failure.
   */
  function CreateAnyMessageMapper<M>(className: string, createInstanceFor: string -> Instantiation<M>)
    : (r: Result<Option<MessageMapper<M>>, MappingError>)
    ensures r.Success? && r.value.Some? <==> createInstanceFor(className).Instance?
    ensures r.Success? && r.value.Some? ==> r.value.value == DynamicMapper(createInstanceFor(className).mapper)
    ensures r == Success(None) <==>
              createInstanceFor(className).Failed? && IsExpectedFailure(createInstanceFor(className).cause)
    ensures r.Failure? <==>
              createInstanceFor(className).Failed? && !IsExpectedFailure(createInstanceFor(className).cause)
    ensures r.Failure? ==> r.error.cause == createInstanceFor(className).cause
    ensures r.Failure? ==>
              r.error.message == "There was an unknown error when trying to creating instance for '" + className + "'"
  {
    match createInstanceFor(className)
    case Instance(m) => Success(Some(DynamicMapper(m)))
    case Failed(t) =>
      if IsExpectedFailure(t) then Success(None)
      else Failure(IllegalState("There was an unknown error when trying to creating instance for '"
                                + className + "'", t))
  }

  /**
   * `apply(mappingContext, dynamicAccess)`: the engine "javascript", in any
   * letter case, selects the script mapper; any other engine name is taken
   * as a class name to instantiate.
   */
  function Apply<M>(engine: string, createInstanceFor: string -> Instantiation<M>)
    : (r: Result<Option<MessageMapper<M>>, MappingError>)
    ensures r == Success(Some(JavaScriptMapper)) <==> IsJavaScriptEngine(engine)
    ensures !IsJavaScriptEngine(engine) ==> r == CreateAnyMessageMapper(engine, createInstanceFor)
  {
    if IsJavaScriptEngine(engine) then Success(Some(JavaScriptMapper))
    else CreateAnyMessageMapper(engine, createInstanceFor)
  }

  /** The script engine never consults the class path: its result does not depend on instantiation. */
  lemma ScriptEngineIgnoresInstantiation<M>(engine: string, f: string -> Instantiation<M>, g: string -> Instantiation<M>)
    requires IsJavaScriptEngine(engine)
    ensures Apply(engine, f) == Apply(engine, g)
  {
  }

  /** Any other engine name is passed to instantiation unchanged: only the outcome for that very name matters. */
  lemma OtherEngineUsesItsOwnName<M>(engine: string, f: string -> Instantiation<M>, g: string -> Instantiation<M>)
    requires !IsJavaScriptEngine(engine)
    requires f(engine) == g(engine)
    ensures Apply(engine, f) == Apply(engine, g)
  {
  }

  /** ASCII lower-case folding. */
  function AsciiLower(c: char): char {
    if 'A' <= c <= 'Z' then (c as int + 32) as char else c
  }

  /** "javascript" in any mix of ASCII letter cases selects the script mapper. */
  lemma AnyAsciiCaseSelectsScript(engine: string)
    requires |engine| == |JavaScriptEngine|
    requires forall i :: 0 <= i < |engine| ==> AsciiLower(engine[i]) == JavaScriptEngine[i]
    ensures IsJavaScriptEngine(engine)
  {
    forall i | 0 <= i < |engine| ensures CharEqualsIgnoreCase(JavaScriptEngine[i], engine[i]) {
      var c := engine[i];
      if 'A' <= c <= 'Z' {
        assert LowerCase(UpperCase(c)) == JavaScriptEngine[i];
        assert LowerCase(UpperCase(JavaScriptEngine[i])) == JavaScriptEngine[i];
      }
    }
  }

  /**
   * Exactly the spellings that select the script mapper: each letter of
   * "javascript" in either ASCII case, plus dotless i or capital I with dot
   * above for the "i" and long s for the "s".
   */
  predicate ScriptSpelling(engine: string) {
    && |engine| == |JavaScriptEngine|
    && forall i :: 0 <= i < |engine| ==>
         || engine[i] == JavaScriptEngine[i]
         || engine[i] as int == JavaScriptEngine[i] as int - 32
         || (i == 7 && (engine[i] == '\U{0131}' || engine[i] == '\U{0130}'))
         || (i == 4 && engine[i] == '\U{017F}')
  }

  /** An engine name selects the script mapper if and only if it is one of those spellings. */
  lemma ScriptEngineSpellings(engine: string)
    ensures IsJavaScriptEngine(engine) <==> ScriptSpelling(engine)
  {
    if |engine| == |JavaScriptEngine| {
      forall i | 0 <= i < |engine|
        ensures CharEqualsIgnoreCase(JavaScriptEngine[i], engine[i]) <==>
                || engine[i] == JavaScriptEngine[i]
                || engine[i] as int == JavaScriptEngine[i] as int - 32
                || (i == 7 && (engine[i] == '\U{0131}' || engine[i] == '\U{0130}'))
                || (i == 4 && engine[i] == '\U{017F}')
      {
      }
    }
  }

  /** Java's case mapping also folds a dotless i onto "i": "javascrıpt" selects the script mapper too. */
  lemma DotlessISelectsScript()
    ensures IsJavaScriptEngine("javascr\U{0131}pt")
  {
    var e := "javascr\U{0131}pt";
    forall i | 0 <= i < |e| ensures CharEqualsIgnoreCase(JavaScriptEngine[i], e[i]) {
      if i == 7 {
        assert UpperCase(e[i]) == 'I' == UpperCase(JavaScriptEngine[i]);
      }
    }
  }
}
