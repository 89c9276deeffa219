/**
  Shared vocabulary of the model: optional values, results carrying an HTTP
  error, document ids and timestamps, and the few JavaScript string and array
  operations the handlers rely on (String.prototype.trim,
  String.prototype.toUpperCase on ASCII letters, Array.prototype.filter with
  a `!==` test).
 */
module Base {

  /** A nullable value (JavaScript `null`/`undefined` or a present value). */
  datatype Option<+T> = None | Some(value: T) {
    function GetOr(default: T): T {
      match this
      case Some(v) => v
      case None => default
    }
  }

  /** The HTTP status and error text a handler answers with on failure. */
  datatype Error = Error(status: nat, message: string)

  /** What a route handler produces: its payload, or an error response. */
  datatype Result<+T> = Success(value: T) | Failure(error: Error)

  /** A document id (a MongoDB ObjectId); ids are compared for equality only. */
  type Id = nat

  /** A point in time (a JavaScript Date), as milliseconds since the epoch. */
  type Timestamp = nat

  // ---------------------------------------------------------------------------
  // String.prototype.trim

  /** The ECMAScript WhiteSpace and LineTerminator code points, which `trim` strips. */
  predicate IsWhitespace(c: char) {
    c == '\t' || c == '\n' || c == '\U{000B}' || c == '\U{000C}' || c == '\r' || c == ' '
    || c == '\U{00A0}' || c == '\U{1680}' || ('\U{2000}' <= c <= '\U{200A}')
    || c == '\U{2028}' || c == '\U{2029}' || c == '\U{202F}' || c == '\U{205F}'
    || c == '\U{3000}' || c == '\U{FEFF}'
  }

  /** `s` with its leading whitespace removed. */
  function TrimStart(s: string): (r: string)
    ensures |r| <= |s| && r == s[|s| - |r|..]
    ensures r == [] || !IsWhitespace(r[0])
    ensures forall i :: 0 <= i < |s| - |r| ==> IsWhitespace(s[i])
  {
    if s == [] || !IsWhitespace(s[0]) then s else TrimStart(s[1..])
  }

  /** `s` with its trailing whitespace removed. */
  function TrimEnd(s: string): (r: string)
    ensures |r| <= |s| && r == s[..|r|]
    ensures r == [] || !IsWhitespace(r[|r| - 1])
    ensures forall i :: |r| <= i < |s| ==> IsWhitespace(s[i])
  {
    if s == [] || !IsWhitespace(s[|s| - 1]) then s else TrimEnd(s[..|s| - 1])
  }

  /** `s.trim()`: the longest infix of `s` that neither starts nor ends with whitespace. */
  function Trim(s: string): (r: string)
    ensures r == [] || (!IsWhitespace(r[0]) && !IsWhitespace(r[|r| - 1]))
  {
    TrimEnd(TrimStart(s))
  }

  /** `!s.trim()` in JavaScript: the string is empty once trimmed, that is, it is all whitespace. */
  predicate IsBlank(s: string): (b: bool)
    ensures b <==> forall i :: 0 <= i < |s| ==> IsWhitespace(s[i])
  {
    Trim(s) == ""
  }

  /** Trimming twice is trimming once. */
  lemma TrimIdempotent(s: string)
    ensures Trim(Trim(s)) == Trim(s)
  {
    var r := Trim(s);
    assert TrimStart(r) == r;
    assert TrimEnd(r) == r;
  }

  // ---------------------------------------------------------------------------
  // String.prototype.toUpperCase, on the ASCII range

  /** The upper-case form of an ASCII letter; every other character is kept. */
  function UpperChar(c: char): char {
    if 'a' <= c <= 'z' then (c as int - 32) as char else c
  }

  /** `s.toUpperCase()` where only ASCII letters change case. */
  function ToUpper(s: string): (r: string)
    ensures |r| == |s|
    ensures forall i :: 0 <= i < |s| ==> r[i] == UpperChar(s[i])
    ensures forall i :: 0 <= i < |r| ==> !('a' <= r[i] <= 'z')
  {
    if s == [] then [] else [UpperChar(s[0])] + ToUpper(s[1..])
  }

  /** Upper-casing is idempotent, so a stored upper-case code is its own upper case. */
  lemma ToUpperIdempotent(s: string)
    ensures ToUpper(ToUpper(s)) == ToUpper(s)
  {
    var u := ToUpper(s);
    assert forall i :: 0 <= i < |u| ==> ToUpper(u)[i] == u[i];
  }

  // ---------------------------------------------------------------------------
  // Array.prototype.filter(e => e !== x)

  /** `s.filter(e => e !== x)`: every occurrence of `x` dropped, the rest kept in order. */
  function Without<T(==)>(s: seq<T>, x: T): (r: seq<T>)
    ensures |r| <= |s|
    ensures x !in r
    ensures forall i :: 0 <= i < |r| ==> r[i] in s
    ensures forall i :: 0 <= i < |s| && s[i] != x ==> s[i] in r
    ensures |r| == |s| <==> x !in s
  {
    if s == [] then []
    else if s[0] == x then Without(s[1..], x)
    else [s[0]] + Without(s[1..], x)
  }

  /** Filtering distributes over concatenation: the order of the kept elements is the original one. */
  lemma {:induction false} WithoutConcat<T>(a: seq<T>, b: seq<T>, x: T)
    ensures Without(a + b, x) == Without(a, x) + Without(b, x)
  {
    if a == [] {
      assert a + b == b;
    } else {
      assert (a + b)[1..] == a[1..] + b;
      WithoutConcat(a[1..], b, x);
    }
  }

  /** Filtering out an absent element changes nothing. */
  lemma {:induction false} WithoutAbsent<T>(s: seq<T>, x: T)
    requires x !in s
    ensures Without(s, x) == s
  {
    if s != [] {
      assert s == [s[0]] + s[1..];
      WithoutAbsent(s[1..], x);
    }
  }

  /** Filtering removes all copies of `x` and keeps every copy of every other value. */
  lemma {:induction false} WithoutCounts<T(!new)>(s: seq<T>, x: T)
    ensures forall y :: multiset(Without(s, x))[y] == if y == x then 0 else multiset(s)[y]
  {
    if s != [] {
      assert s == [s[0]] + s[1..];
      WithoutCounts(s[1..], x);
    }
  }
}
