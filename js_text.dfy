/**
 * The JavaScript string operations the system relies on, on Dafny strings.
 *
 * `Trim` strips exactly the characters ECMAScript's `String.prototype.trim`
 * strips (WhiteSpace and LineTerminator); the same set is what a regular
 * expression's `\s` matches. Case mapping is limited to ASCII letters.
 */
module JsText {
  import opened Wrappers

  /** ECMAScript WhiteSpace and LineTerminator code points. */
  predicate IsSpace(c: char) {
    || c == '\t' || c == '\n' || c == '\U{0B}' || c == '\U{0C}' || c == '\r'
    || c == ' ' || c == '\U{A0}' || c == '\U{1680}'
    || ('\U{2000}' <= c <= '\U{200A}')
    || c == '\U{2028}' || c == '\U{2029}' || c == '\U{202F}' || c == '\U{205F}'
    || c == '\U{3000}' || c == '\U{FEFF}'
  }

  predicate IsBlank(s: string) {
    forall i :: 0 <= i < |s| ==> IsSpace(s[i])
  }

  /** Drops leading white space (the `\s*` of a regular expression, or `trimStart`). */
  function TrimStart(s: string): (r: string)
    ensures |r| <= |s|
  {
    if s == [] || !IsSpace(s[0]) then s else TrimStart(s[1..])
  }

  /** Drops trailing white space. */
  function TrimEnd(s: string): (r: string)
    ensures |r| <= |s|
  {
    if s == [] || !IsSpace(s[|s| - 1]) then s else TrimEnd(s[..|s| - 1])
  }

  /** `String.prototype.trim`. */
  function Trim(s: string): (r: string)
    ensures |r| <= |s|
  {
    TrimEnd(TrimStart(s))
  }

  lemma {:induction false} TrimStartFacts(s: string)
    ensures var r := TrimStart(s);
      r == s[|s| - |r|..] && (r == [] || !IsSpace(r[0])) && IsBlank(s[..|s| - |r|])
  {
    if s != [] && IsSpace(s[0]) {
      TrimStartFacts(s[1..]);
      var r := TrimStart(s[1..]);
      assert s[1..][..|s[1..]| - |r|] == s[1..|s| - |r|];
    }
  }

  lemma {:induction false} TrimEndFacts(s: string)
    ensures var r := TrimEnd(s);
      r == s[..|r|] && (r == [] || !IsSpace(r[|r| - 1])) && IsBlank(s[|r|..])
  {
    if s != [] && IsSpace(s[|s| - 1]) {
      TrimEndFacts(s[..|s| - 1]);
      var r := TrimEnd(s[..|s| - 1]);
      assert s[..|s| - 1][|r|..] == s[|r|..|s| - 1];
    }
  }

  /** The trimmed string is a slice of the input with no white space at either end; it is empty exactly for blank input. */
  lemma TrimFacts(s: string)
    ensures var r := Trim(s);
      (exists i, j :: 0 <= i <= j <= |s| && r == s[i..j])
      && (r == [] || (!IsSpace(r[0]) && !IsSpace(r[|r| - 1])))
      && (r == [] <==> IsBlank(s))
  {
    var a := TrimStart(s);
    TrimStartFacts(s);
    TrimEndFacts(a);
    var r := TrimEnd(a);
    var k := |s| - |a|;
    assert r == s[k..k + |r|];
    assert s == s[..k] + a;
    if a == [] {
      assert s[..k] == s;
    } else {
      assert s[k] == a[0];
    }
  }

  /** Trimming twice is trimming once. */
  lemma TrimIdempotent(s: string)
    ensures Trim(Trim(s)) == Trim(s)
  {
    var r := Trim(s);
    TrimFacts(s);
    if r != [] {
      assert TrimStart(r) == r;
      assert TrimEnd(r) == r;
    }
  }

  /** `toLowerCase` on ASCII letters; every other character is kept. */
  function LowerChar(c: char): char {
    if 'A' <= c <= 'Z' then (c as int + 32) as char else c
  }

  function ToLower(s: string): (r: string)
    ensures |r| == |s|
  {
    if s == [] then [] else [LowerChar(s[0])] + ToLower(s[1..])
  }

  /** Lower-casing works character by character. */
  lemma {:induction false} ToLowerAppend(a: string, b: string)
    ensures ToLower(a + b) == ToLower(a) + ToLower(b)
  {
    if a != [] {
      calc {
        ToLower(a + b);
      == { assert (a + b)[0] == a[0] && (a + b)[1..] == a[1..] + b; }
        [LowerChar(a[0])] + ToLower(a[1..] + b);
      == { ToLowerAppend(a[1..], b); }
        [LowerChar(a[0])] + (ToLower(a[1..]) + ToLower(b));
      }
    } else {
      assert a + b == b;
    }
  }

  /** White space has no case: lower-casing a blank string keeps it. */
  lemma {:induction false} ToLowerBlank(u: string)
    requires IsBlank(u)
    ensures ToLower(u) == u
  {
    if u != [] {
      ToLowerBlank(u[1..]);
      assert u == [u[0]] + u[1..];
    }
  }

  /** Blank characters in front are all dropped by `TrimStart`. */
  lemma {:induction false} TrimStartBlankPrefix(u: string, t: string)
    requires IsBlank(u)
    ensures TrimStart(u + t) == TrimStart(t)
  {
    if u != [] {
      assert (u + t)[0] == u[0] && (u + t)[1..] == u[1..] + t;
      TrimStartBlankPrefix(u[1..], t);
    } else {
      assert u + t == t;
    }
  }

  /** Blank characters behind are all dropped by `TrimEnd`. */
  lemma {:induction false} TrimEndBlankSuffix(t: string, v: string)
    requires IsBlank(v)
    ensures TrimEnd(t + v) == TrimEnd(t)
    decreases |v|
  {
    if v != [] {
      var w := v[..|v| - 1];
      assert (t + v)[|t + v| - 1] == v[|v| - 1] && (t + v)[..|t + v| - 1] == t + w;
      TrimEndBlankSuffix(t, w);
    } else {
      assert t + v == t;
    }
  }

  /** `TrimStart` of text that starts with a non-blank character leaves what follows untouched. */
  lemma {:induction false} TrimStartAppend(t: string, v: string)
    requires !IsBlank(t)
    ensures TrimStart(t + v) == TrimStart(t) + v
  {
    assert t != [];
    assert (t + v)[0] == t[0] && (t + v)[1..] == t[1..] + v;
    if IsSpace(t[0]) {
      assert !IsBlank(t[1..]) by {
        var i :| 0 <= i < |t| && !IsSpace(t[i]);
        assert t[1..][i - 1] == t[i];
      }
      TrimStartAppend(t[1..], v);
    }
  }

  /** Blank padding on either side does not change the trimmed text. */
  lemma TrimPadded(u: string, t: string, v: string)
    requires IsBlank(u) && IsBlank(v)
    ensures Trim(u + t + v) == Trim(t)
  {
    assert u + t + v == u + (t + v);
    TrimStartBlankPrefix(u, t + v);
    if IsBlank(t) {
      assert IsBlank(u + t + v);
      TrimFacts(u + t + v);
      TrimFacts(t);
    } else {
      TrimStartAppend(t, v);
      TrimEndBlankSuffix(TrimStart(t), v);
    }
  }

  predicate StartsWith(s: string, prefix: string) {
    |prefix| <= |s| && s[..|prefix|] == prefix
  }

  /** Case-insensitive (ASCII) test that `s` begins with the lower-case word `w`. */
  predicate StartsWithIgnoringCase(s: string, w: string) {
    |w| <= |s| && ToLower(s[..|w|]) == w
  }

  predicate OccursAt(s: string, sub: string, i: int) {
    0 <= i && i + |sub| <= |s| && s[i..i + |sub|] == sub
  }

  /** `s.indexOf(sub, from)`: the first occurrence at or after `from`, or -1. */
  function IndexOfFrom(s: string, sub: string, from: nat): (r: int)
    decreases |s| - from
    ensures r == -1 || (from <= r && OccursAt(s, sub, r))
    ensures r == -1 ==> forall i :: from <= i ==> !OccursAt(s, sub, i)
    ensures r >= 0 ==> forall i :: from <= i < r ==> !OccursAt(s, sub, i)
  {
    if from + |sub| > |s| then -1
    else if s[from..from + |sub|] == sub then from
    else IndexOfFrom(s, sub, from + 1)
  }

  function IndexOf(s: string, sub: string): (r: int)
    ensures r == -1 || OccursAt(s, sub, r)
    ensures r == -1 <==> forall i :: !OccursAt(s, sub, i)
    ensures r >= 0 ==> forall i :: 0 <= i < r ==> !OccursAt(s, sub, i)
  {
    IndexOfFrom(s, sub, 0)
  }

  /** `s.includes(sub)`. */
  predicate Includes(s: string, sub: string) {
    IndexOf(s, sub) >= 0
  }

  /** `s.replace(sub, "")` with a string pattern: only the first occurrence goes. */
  function RemoveFirst(s: string, sub: string): (r: string)
    ensures Includes(s, sub) ==> r == s[..IndexOf(s, sub)] + s[IndexOf(s, sub) + |sub|..]
    ensures !Includes(s, sub) ==> r == s
  {
    var i := IndexOf(s, sub);
    if i < 0 then s else s[..i] + s[i + |sub|..]
  }

  /** `s.split(c)` for a separator character; several separators give a regex class. */
  function Split(s: string, seps: set<char>): (r: seq<string>)
    ensures |r| >= 1
    ensures forall k :: 0 <= k < |r| ==> forall j :: 0 <= j < |r[k]| ==> r[k][j] !in seps
  {
    if s == [] then [""]
    else
      var rest := Split(s[1..], seps);
      if s[0] in seps then [""] + rest
      else [[s[0]] + rest[0]] + rest[1..]
  }

  /** `parts.join(sep)`. */
  function Join(parts: seq<string>, sep: string): string {
    if |parts| == 0 then ""
    else if |parts| == 1 then parts[0]
    else parts[0] + sep + Join(parts[1..], sep)
  }

  /** A join of two or more pieces: the first piece, the separator, then the join of the rest. */
  lemma JoinCons(x: string, rest: seq<string>, sep: string)
    requires |rest| >= 1
    ensures Join([x] + rest, sep) == x + sep + Join(rest, sep)
  {
    assert ([x] + rest)[1..] == rest;
  }

  /** Splitting on one character and joining with it gives the original string back. */
  lemma {:induction false} JoinSplit(s: string, c: char)
    ensures Join(Split(s, {c}), [c]) == s
  {
    if s != [] {
      JoinSplit(s[1..], c);
      var rest := Split(s[1..], {c});
      if s[0] != c {
        if |rest| == 1 {
        } else {
          assert rest == [rest[0]] + rest[1..];
          assert Join(rest, [c]) == rest[0] + [c] + Join(rest[1..], [c]);
        }
      }
    }
  }

  /** Splitting a separator-free prefix glues it to the first piece of the rest. */
  lemma {:induction false} SplitPrefix(a: string, t: string, seps: set<char>)
    requires forall j :: 0 <= j < |a| ==> a[j] !in seps
    ensures Split(a + t, seps) == [a + Split(t, seps)[0]] + Split(t, seps)[1..]
  {
    if a != [] {
      SplitPrefix(a[1..], t, seps);
      assert (a + t)[1..] == a[1..] + t;
      assert [a[0]] + (a[1..] + Split(t, seps)[0]) == a + Split(t, seps)[0];
    } else {
      assert a + t == t;
      assert a + Split(t, seps)[0] == Split(t, seps)[0];
      assert Split(t, seps) == [a + Split(t, seps)[0]] + Split(t, seps)[1..];
    }
  }

  /**
   * Joining pieces that hold no separator with the separator `c` and
   * splitting on the separators gives the pieces back.
   */
  lemma {:induction false} SplitJoin(parts: seq<string>, c: char, seps: set<char>)
    requires |parts| >= 1 && c in seps
    requires forall k, j :: 0 <= k < |parts| && 0 <= j < |parts[k]| ==> parts[k][j] !in seps
    ensures Split(Join(parts, [c]), seps) == parts
  {
    if |parts| == 1 {
      SplitNone(parts[0], seps);
    } else {
      var rest := parts[1..];
      assert Join(parts, [c]) == parts[0] + [c] + Join(rest, [c]);
      SplitAt(parts[0], c, Join(rest, [c]), seps);
      SplitJoin(rest, c, seps);
      assert parts == [parts[0]] + rest;
    }
  }

  /** The first `n` elements, or all of them (`slice(0, n)`). */
  function Take<T>(xs: seq<T>, n: nat): (r: seq<T>)
    ensures |r| == if |xs| < n then |xs| else n
    ensures r == xs[..|r|]
  {
    if |xs| <= n then xs else xs[..n]
  }

  /** `filter(p => p.trim() !== '')`: the pieces that are not blank, in order. */
  function NonBlank(parts: seq<string>): (r: seq<string>)
    ensures |r| <= |parts|
    ensures forall k :: 0 <= k < |r| ==> Trim(r[k]) != "" && r[k] in parts
    ensures forall k :: 0 <= k < |parts| && Trim(parts[k]) != "" ==> parts[k] in r
  {
    if parts == [] then []
    else if Trim(parts[0]) != "" then [parts[0]] + NonBlank(parts[1..])
    else NonBlank(parts[1..])
  }

  /** Filtering a concatenation filters each part, in order. */
  lemma {:induction false} NonBlankAppend(a: seq<string>, b: seq<string>)
    ensures NonBlank(a + b) == NonBlank(a) + NonBlank(b)
  {
    if a == [] {
      assert a + b == b;
    } else {
      assert (a + b)[0] == a[0] && (a + b)[1..] == a[1..] + b;
      NonBlankAppend(a[1..], b);
      if Trim(a[0]) != "" {
        SeqAssoc([a[0]], NonBlank(a[1..]), NonBlank(b));
      }
    }
  }

  /** Splitting at a separator splits each side on its own: the pieces of the left, then those of the right. */
  lemma {:induction false} SplitConcat(a: string, c: char, t: string, seps: set<char>)
    requires c in seps
    ensures Split(a + [c] + t, seps) == Split(a, seps) + Split(t, seps)
  {
    if a == [] {
      assert a + [c] + t == [c] + t;
      assert ([c] + t)[1..] == t;
    } else {
      var s := a + [c] + t;
      assert s[0] == a[0] && s[1..] == a[1..] + [c] + t;
      SplitConcat(a[1..], c, t, seps);
      if a[0] in seps {
        ConsAssoc("", Split(a[1..], seps), Split(t, seps));
      } else {
        GlueFirst([a[0]], Split(a[1..], seps), Split(t, seps));
      }
    }
  }

  lemma ConsAssoc<T>(x: T, left: seq<T>, right: seq<T>)
    ensures [x] + (left + right) == ([x] + left) + right
  {
    SeqAssoc([x], left, right);
  }

  lemma SeqAssoc<T>(x: seq<T>, y: seq<T>, z: seq<T>)
    ensures x + (y + z) == (x + y) + z
  {
  }

  /** Gluing `x` to the first of the pieces `left + right`, with `left` non-empty, touches only `left`. */
  lemma GlueFirst<T>(x: seq<T>, left: seq<seq<T>>, right: seq<seq<T>>)
    requires |left| >= 1
    ensures [x + (left + right)[0]] + (left + right)[1..] == ([x + left[0]] + left[1..]) + right
  {
    assert (left + right)[0] == left[0] && (left + right)[1..] == left[1..] + right;
  }

  /** A piece free of separators, then a separator: that piece comes first, the split of the rest after it. */
  lemma SplitAt(a: string, c: char, t: string, seps: set<char>)
    requires c in seps && forall j :: 0 <= j < |a| ==> a[j] !in seps
    ensures Split(a + [c] + t, seps) == [a] + Split(t, seps)
  {
    assert a + [c] + t == a + ([c] + t);
    SplitPrefix(a, [c] + t, seps);
    assert ([c] + t)[1..] == t;
    assert Split([c] + t, seps) == [""] + Split(t, seps);
    assert a + "" == a;
  }

  /** A string free of separators is split into itself alone. */
  lemma SplitNone(a: string, seps: set<char>)
    requires forall j :: 0 <= j < |a| ==> a[j] !in seps
    ensures Split(a, seps) == [a]
  {
    SplitPrefix(a, "", seps);
    assert a + "" == a;
  }

  /** Every character of a join comes from one of the pieces or from the separator. */
  lemma {:induction false} JoinChars(parts: seq<string>, sep: string, c: char)
    requires c in Join(parts, sep)
    ensures c in sep || exists k :: 0 <= k < |parts| && c in parts[k]
  {
    if |parts| > 1 {
      var rest := Join(parts[1..], sep);
      assert Join(parts, sep) == parts[0] + sep + rest;
      if c !in parts[0] && c !in sep {
        JoinChars(parts[1..], sep, c);
        var k :| 0 <= k < |parts[1..]| && c in parts[1..][k];
        assert parts[k + 1] == parts[1..][k];
      }
    }
  }

  /** A join ends with the last character of its last piece, when that piece is not empty. */
  lemma {:induction false} JoinLast(parts: seq<string>, sep: string)
    requires |parts| >= 1 && parts[|parts| - 1] != ""
    ensures |Join(parts, sep)| >= 1
    ensures Join(parts, sep)[|Join(parts, sep)| - 1] == parts[|parts| - 1][|parts[|parts| - 1]| - 1]
  {
    if |parts| > 1 {
      JoinLast(parts[1..], sep);
      assert parts[1..][|parts[1..]| - 1] == parts[|parts| - 1];
      assert Join(parts, sep) == parts[0] + sep + Join(parts[1..], sep);
    }
  }

  /** Decimal digits of a natural number (`String(n)`). */
  function NatToString(n: nat): (r: string)
    ensures |r| >= 1
    ensures forall i :: 0 <= i < |r| ==> '0' <= r[i] <= '9'
    decreases n
  {
    var d := ['0' + (n % 10) as char];
    if n < 10 then d else NatToString(n / 10) + d
  }

  function IntToString(n: int): (r: string)
    ensures |r| >= 1
  {
    if n < 0 then "-" + NatToString(-n) else NatToString(n)
  }

  predicate IsDigit(c: char) {
    '0' <= c <= '9'
  }

  predicate AllDigits(s: string) {
    forall i :: 0 <= i < |s| ==> IsDigit(s[i])
  }

  /** The value of a string of decimal digits. */
  function DigitsValue(s: string): (n: nat)
    requires AllDigits(s)
  {
    if s == [] then 0 else 10 * DigitsValue(s[..|s| - 1]) + (s[|s| - 1] - '0') as nat
  }

  /** Reading back the digits `String(n)` writes gives `n`. */
  lemma {:induction false} DigitsValueOfNatToString(n: nat)
    ensures AllDigits(NatToString(n)) && DigitsValue(NatToString(n)) == n
    decreases n
  {
    if n >= 10 {
      DigitsValueOfNatToString(n / 10);
      var s := NatToString(n);
      assert s[..|s| - 1] == NatToString(n / 10);
    }
  }

  /** The longest prefix of decimal digits. */
  function LeadingDigits(s: string): (r: string)
    ensures AllDigits(r) && StartsWith(s, r)
    ensures |r| < |s| ==> !IsDigit(s[|r|])
  {
    if s == [] || !IsDigit(s[0]) then [] else [s[0]] + LeadingDigits(s[1..])
  }

  /**
   * `parseInt(s, 10)`: leading white space, an optional sign, then the
   * longest run of digits; `None` stands for `NaN` (no digit at all).
   */
  function ParseInt(s: string): (r: Option<int>)
    ensures r.Some? <==> |LeadingDigits(DropSign(TrimStart(s)))| > 0
  {
    var t := TrimStart(s);
    var body := DropSign(t);
    var digits := LeadingDigits(body);
    if digits == [] then None
    else
      var v: int := DigitsValue(digits);
      if t != [] && t[0] == '-' then Some(-v) else Some(v)
  }

  function DropSign(t: string): string {
    if t != [] && (t[0] == '+' || t[0] == '-') then t[1..] else t
  }

  /**
   * `Number(s)` for the forms this system meets: blank is 0, a run of
   * decimal digits between white space is its value, anything else is
   * `NaN` (`None`).
   */
  function ToNumber(s: string): (r: Option<int>)
    ensures AllDigits(Trim(s)) ==> r.Some?
  {
    var t := Trim(s);
    if AllDigits(t) then Some(DigitsValue(t)) else None
  }

  /** `parseInt` reads back what `String` writes. */
  lemma ParseIntOfNatToString(n: nat)
    ensures ParseInt(NatToString(n)) == Some(n)
  {
    var s := NatToString(n);
    DigitsValueOfNatToString(n);
    assert TrimStart(s) == s;
    assert DropSign(s) == s;
    LeadingDigitsAll(s);
  }

  /** So does `Number`. */
  lemma ToNumberOfNatToString(n: nat)
    ensures ToNumber(NatToString(n)) == Some(n)
  {
    var s := NatToString(n);
    DigitsValueOfNatToString(n);
    assert TrimStart(s) == s;
    assert TrimEnd(s) == s;
  }

  lemma {:induction false} LeadingDigitsAll(s: string)
    requires AllDigits(s)
    ensures LeadingDigits(s) == s
  {
    if s != [] {
      LeadingDigitsAll(s[1..]);
    }
  }
}
