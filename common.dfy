/**
  Small value types and string helpers shared by the relay and the OCR service:
  an optional value, the decimal rendering of a clock reading used in file names,
  and joining a list of strings with a separator.
 */
module Common {

  datatype Option<+T> = None | Some(value: T)

  /** The outcome of a step that can throw: its value, or the error it raised. */
  datatype Result<+T, +E> = Ok(value: T) | Err(error: E)

  /** `s.startsWith(prefix)` in JavaScript and Python. */
  predicate StartsWith(s: string, prefix: string) {
    |prefix| <= |s| && s[..|prefix|] == prefix
  }

  predicate IsDigit(c: char) {
    '0' <= c <= '9'
  }

  /** The decimal rendering of a non-negative integer, as JavaScript's template
      strings and Python's f-strings print a millisecond timestamp. */
  function Decimal(n: nat): (r: string)
    ensures |r| >= 1
    ensures forall i :: 0 <= i < |r| ==> IsDigit(r[i])
    ensures |r| > 1 ==> r[0] != '0'
    decreases n
  {
    var d := [(n % 10) as char + '0'];
    if n < 10 then d else Decimal(n / 10) + d
  }

  /** The value a decimal rendering stands for. */
  function DigitsValue(s: string): int
    decreases |s|
  {
    if s == [] then 0 else DigitsValue(s[..|s| - 1]) * 10 + (s[|s| - 1] as int - '0' as int)
  }

  /** Reading the rendered digits back gives the number: the rendering loses nothing. */
  lemma {:induction false} DecimalRoundTrip(n: nat)
    ensures DigitsValue(Decimal(n)) == n
    decreases n
  {
    var r := Decimal(n);
    if n >= 10 {
      DecimalRoundTrip(n / 10);
      assert r[..|r| - 1] == Decimal(n / 10);
    }
  }

  /** Digits with no leading zero: the form a decimal rendering takes. */
  predicate IsCanonicalDigits(s: string) {
    && s != []
    && (forall i :: 0 <= i < |s| ==> IsDigit(s[i]))
    && (|s| > 1 ==> s[0] != '0')
  }

  /** A canonical digit string is the rendering of its value: the digits, no
      leading zero and the value together fix the text. */
  lemma {:induction false} DecimalOfDigits(s: string)
    requires IsCanonicalDigits(s)
    ensures DigitsValue(s) >= 0
    ensures Decimal(DigitsValue(s)) == s
    decreases |s|
  {
    var d := s[|s| - 1] as int - '0' as int;
    if |s| == 1 {
      assert s[..0] == [];
      assert [(d % 10) as char + '0'] == s;
    } else {
      var p := s[..|s| - 1];
      assert p[0] == s[0];
      DecimalOfDigits(p);
      DigitsPositive(p);
      var n := DigitsValue(s);
      assert n == DigitsValue(p) * 10 + d;
      assert n / 10 == DigitsValue(p) && n % 10 == d;
      assert p + [s[|s| - 1]] == s;
    }
  }

  /** Digits starting with a non-zero digit stand for a positive value. */
  lemma {:induction false} DigitsPositive(s: string)
    requires IsCanonicalDigits(s) && s[0] != '0'
    ensures DigitsValue(s) >= 1
    decreases |s|
  {
    if |s| > 1 {
      var p := s[..|s| - 1];
      assert p[0] == s[0];
      DigitsPositive(p);
    } else {
      assert s[..0] == [];
    }
  }

  /** Concatenation of strings regroups freely. */
  lemma ConcatAssoc(a: string, b: string, c: string)
    ensures a + (b + c) == (a + b) + c
  {
  }

  /** `sep.join(parts)` in Python, `parts.join(sep)` in JavaScript. */
  function Join(parts: seq<string>, sep: string): (r: string)
    decreases |parts|
  {
    if parts == [] then ""
    else if |parts| == 1 then parts[0]
    else parts[0] + sep + Join(parts[1..], sep)
  }

  /** The first character of a join is that of its first part, and its last
      character that of its last part. */
  lemma JoinEnds(parts: seq<string>, sep: string)
    requires parts != [] && parts[0] != [] && parts[|parts| - 1] != []
    ensures var r, last := Join(parts, sep), parts[|parts| - 1];
      r != [] && r[0] == parts[0][0] && r[|r| - 1] == last[|last| - 1]
  {
    JoinEndsTail(parts, sep);
  }

  /** The last character of a join is that of its last part. */
  lemma {:induction false} JoinEndsTail(parts: seq<string>, sep: string)
    requires parts != [] && parts[|parts| - 1] != []
    ensures var r, last := Join(parts, sep), parts[|parts| - 1];
      r != [] && r[|r| - 1] == last[|last| - 1]
    decreases |parts|
  {
    if |parts| > 1 {
      var rest := parts[1..];
      assert rest[|rest| - 1] == parts[|parts| - 1];
      JoinEndsTail(rest, sep);
    }
  }

  // ---------------------------------------------------------------------------
  // Keeping the present values of a sequence of options, in order

  /** The values of the `Some` entries of `s`, in order. */
  function Somes<T>(s: seq<Option<T>>): seq<T>
    decreases |s|
  {
    if s == [] then []
    else Somes(s[..|s| - 1]) + (if s[|s| - 1].Some? then [s[|s| - 1].value] else [])
  }

  /** The positions of the `Some` entries of `s`, in order. */
  function SomeIndices<T>(s: seq<Option<T>>): seq<nat>
    decreases |s|
  {
    if s == [] then []
    else SomeIndices(s[..|s| - 1]) + (if s[|s| - 1].Some? then [|s| - 1] else [])
  }

  /** Extending `s` by one entry extends its kept values by that entry's value, if any. */
  lemma SomesSnoc<T>(s: seq<Option<T>>, i: nat)
    requires i < |s|
    ensures Somes(s[..i + 1]) == Somes(s[..i]) + (if s[i].Some? then [s[i].value] else [])
  {
    assert s[..i + 1][..i] == s[..i];
  }

  /** The k-th kept value is the value at the k-th kept position. */
  lemma {:induction false} SomesIndexed<T>(s: seq<Option<T>>)
    ensures |Somes(s)| == |SomeIndices(s)|
    ensures forall k :: 0 <= k < |SomeIndices(s)| ==>
      SomeIndices(s)[k] < |s| && s[SomeIndices(s)[k]] == Some(Somes(s)[k])
    decreases |s|
  {
    if s != [] {
      var init := s[..|s| - 1];
      SomesIndexed(init);
      forall k | 0 <= k < |SomeIndices(init)| ensures s[SomeIndices(init)[k]] == init[SomeIndices(init)[k]] {
      }
    }
  }

  /** The kept positions are strictly increasing, so input order is kept, and
      a position is kept exactly when its entry is a `Some`. */
  lemma {:induction false} SomeIndicesExact<T>(s: seq<Option<T>>)
    ensures |SomeIndices(s)| <= |s|
    ensures forall k, m :: 0 <= k < m < |SomeIndices(s)| ==> SomeIndices(s)[k] < SomeIndices(s)[m]
    ensures forall k :: 0 <= k < |SomeIndices(s)| ==> SomeIndices(s)[k] < |s|
    ensures forall i :: 0 <= i < |s| ==> (i in SomeIndices(s) <==> s[i].Some?)
    decreases |s|
  {
    if s != [] {
      var init := s[..|s| - 1];
      SomeIndicesExact(init);
      forall i | 0 <= i < |init| ensures s[i] == init[i] {
      }
    }
  }
}
