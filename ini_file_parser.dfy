/**
  The INI-style loader `IniFileParser.load`.

  The input is the file's content already split into lines (no line holds a
  line terminator). Each non-empty line is classified by one anchored pattern
  as a section header `[name]` or a key line `key = value`; values are coerced
  to a boolean, then an integer, else kept as text; key/value pairs before the
  first header go straight into the root mapping and every header's pairs
  become one nested mapping stored under the header's name.
*/
module IniFileParser {
  import opened Wrappers

  /** Python refuses to convert a decimal string of more digits than this
      (the interpreter's default `int_max_str_digits`). */
  const MaxStrDigits := 4300

  // ---------------------------------------------------------------------
  // Character classes of the pattern (`\w`, `\s`) and of `int()`
  // ---------------------------------------------------------------------

  /** `\w` restricted to ASCII: a letter, a digit or an underscore. */
  predicate IsWordChar(c: char) {
    ('a' <= c <= 'z') || ('A' <= c <= 'Z') || ('0' <= c <= '9') || c == '_'
  }

  /** `\s` restricted to ASCII: what Python's `str.isspace` accepts below 128. */
  predicate IsSpace(c: char) {
    c == ' ' || (9 <= c as int <= 13) || (28 <= c as int <= 31)
  }

  /** The whitespace `int()` skips around its argument (CPython's
      `Py_ISSPACE`): space and `\t` to `\r`, but not `\x1c` to `\x1f`,
      which `\s` does match. */
  predicate IsIntSpace(c: char) {
    c == ' ' || (9 <= c as int <= 13)
  }

  predicate IsDigit(c: char) {
    '0' <= c <= '9'
  }

  predicate IsWord(s: string) {
    forall i :: 0 <= i < |s| ==> IsWordChar(s[i])
  }

  predicate AllSpace(s: string) {
    forall i :: 0 <= i < |s| ==> IsSpace(s[i])
  }

  predicate AllIntSpace(s: string) {
    forall i :: 0 <= i < |s| ==> IsIntSpace(s[i])
  }

  // ---------------------------------------------------------------------
  // Data model
  // ---------------------------------------------------------------------

  /** A coerced scalar: Python's `bool`, `int` or `str`. */
  datatype Value = BoolVal(b: bool) | IntVal(i: int) | StrVal(s: string)

  /** A value of the root mapping: a scalar, or a section's own mapping. */
  datatype Entry = Scalar(v: Value) | Section(fields: map<string, Value>)

  /** A line the pattern accepts: capture group 1 (a header's name), or
      capture groups 2 and 3 (a key and its raw, uncoerced value). */
  datatype Line = Header(name: string) | Pair(key: string, raw: string)

  /** `IniParseError`: the offending line and its 1-based number, counted
      over all lines including the skipped empty ones. */
  datatype ParseError = ParseError(text: string, lineNo: nat)

  // ---------------------------------------------------------------------
  // Line classification: `(?<!.)\[(\w*)\]|(?<!.)(\w+)\s{0,1}=(?(2)\s{0,1}(.*))`
  // ---------------------------------------------------------------------

  /** Length of the longest run of word characters starting at `start`. */
  function WordRun(s: string, start: nat): (n: nat)
    requires start <= |s|
    ensures start + n <= |s|
    decreases |s| - start
  {
    if start < |s| && IsWordChar(s[start]) then 1 + WordRun(s, start + 1) else 0
  }

  /** `WordRun` stops exactly at the first character that is not a word character. */
  lemma {:induction false} WordRunSpec(s: string, start: nat)
    requires start <= |s|
    ensures forall k :: start <= k < start + WordRun(s, start) ==> IsWordChar(s[k])
    ensures start + WordRun(s, start) == |s| || !IsWordChar(s[start + WordRun(s, start)])
    decreases |s| - start
  {
    if start < |s| && IsWordChar(s[start]) {
      WordRunSpec(s, start + 1);
    }
  }

  /** A run of `len` word characters ended by the end of `s` or by another
      character is exactly what `WordRun` measures. */
  lemma {:induction false} WordRunExact(s: string, start: nat, len: nat)
    requires start + len <= |s|
    requires forall k :: start <= k < start + len ==> IsWordChar(s[k])
    requires start + len == |s| || !IsWordChar(s[start + len])
    ensures WordRun(s, start) == len
    decreases len
  {
    if len > 0 {
      WordRunExact(s, start + 1, len - 1);
    }
  }

  /** What may stand between a key and its value: `=` with at most one
      whitespace character on each side. */
  predicate IsSeparator(m: string) {
    (|m| == 1 && m[0] == '=') ||
    (|m| == 2 && ((IsSpace(m[0]) && m[1] == '=') || (m[0] == '=' && IsSpace(m[1])))) ||
    (|m| == 3 && IsSpace(m[0]) && m[1] == '=' && IsSpace(m[2]))
  }

  /** The pattern searched in one line. Both alternatives are anchored at
      column 0; the header alternative is tried first and accepts any text
      after `]`; in a key line the value is the rest of the line after one
      optional whitespace character. */
  function Classify(line: string): Option<Line> {
    if |line| > 0 && line[0] == '[' then MatchHeader(line) else MatchKeyLine(line)
  }

  /** Every line accepted as a header or a key line has that shape. */
  lemma ClassifySound(line: string)
    ensures Classify(line).Some? && Classify(line).value.Header? ==> IsHeaderLine(line, Classify(line).value.name)
    ensures Classify(line).Some? && Classify(line).value.Pair? ==>
      IsKeyLine(line, Classify(line).value.key, Classify(line).value.raw)
  {
    if |line| > 0 && line[0] == '[' {
      HeaderSound(line);
    } else {
      KeySound(line);
    }
  }

  lemma HeaderSound(line: string)
    requires |line| > 0 && line[0] == '['
    ensures MatchHeader(line).Some? ==> IsHeaderLine(line, MatchHeader(line).value.name)
  {
    WordRunSpec(line, 1);
    var n := WordRun(line, 1);
    var name := line[1..1 + n];
    assert forall i :: 0 <= i < n ==> name[i] == line[1 + i];
  }

  lemma KeySound(line: string)
    ensures MatchKeyLine(line).Some? ==> IsKeyLine(line, MatchKeyLine(line).value.key, MatchKeyLine(line).value.raw)
  {
    var n := WordRun(line, 0);
    if n > 0 {
      assert IsWord(line[..n]) by {
        WordRunSpec(line, 0);
        assert forall i :: 0 <= i < n ==> line[..n][i] == line[i];
      }
      if n < |line| && line[n] == '=' {
        KeyLineSound(line, n, n);
      } else if n + 1 < |line| && IsSpace(line[n]) && line[n + 1] == '=' {
        KeyLineSound(line, n, n + 1);
      }
    }
  }

  /** `line` starts with `[name]`, `name` made of word characters. */
  predicate IsHeaderLine(line: string, n: string) {
    |n| + 2 <= |line| && line[0] == '[' && line[1..|n| + 1] == n && line[|n| + 1] == ']' && IsWord(n)
  }

  /** `line` is `k`, a separator and `v`, where `v` starts with whitespace
      only when the separator already took one after `=`. */
  predicate IsKeyLine(line: string, k: string, v: string) {
    k != "" && IsWord(k) && |k| + |v| < |line| &&
    line[..|k|] == k && line[|line| - |v|..] == v && IsSeparator(line[|k|..|line| - |v|]) &&
    (|v| > 0 && IsSpace(v[0]) ==> line[|line| - |v| - 1] != '=')
  }

  /** The first alternative, `[(\w*)]`. */
  function MatchHeader(line: string): Option<Line>
    requires |line| > 0 && line[0] == '['
  {
    var n := WordRun(line, 1);
    if 1 + n < |line| && line[1 + n] == ']' then Some(Header(line[1..1 + n])) else None
  }

  /** The second alternative, `(\w+)\s{0,1}=\s{0,1}(.*)`. */
  function MatchKeyLine(line: string): Option<Line> {
    var n := WordRun(line, 0);
    if n == 0 then None
    else if n < |line| && line[n] == '=' then Some(Pair(line[..n], ValueAfter(line, n + 1)))
    else if n + 1 < |line| && IsSpace(line[n]) && line[n + 1] == '=' then Some(Pair(line[..n], ValueAfter(line, n + 2)))
    else None
  }

  lemma KeyLineSound(line: string, n: nat, e: nat)
    requires 0 < n <= e < |line| && line[e] == '=' && (e == n || (e == n + 1 && IsSpace(line[n])))
    requires IsWord(line[..n])
    ensures IsKeyLine(line, line[..n], ValueAfter(line, e + 1))
  {
    var v := ValueAfter(line, e + 1);
    var m := line[n..|line| - |v|];
    assert |m| == e + 1 - n || |m| == e + 2 - n;
    assert forall i :: 0 <= i < |m| ==> m[i] == line[n + i];
  }

  /** Capture group 3: the text after `=`, less one leading whitespace character. */
  function ValueAfter(line: string, start: nat): (v: string)
    requires start <= |line|
    ensures |v| == |line| - start || (|v| == |line| - start - 1 && IsSpace(line[start]))
    ensures v == line[|line| - |v|..]
    ensures |v| > 0 && IsSpace(v[0]) ==> |v| == |line| - start - 1
  {
    if start < |line| && IsSpace(line[start]) then line[start + 1..] else line[start..]
  }

  /** A header line `[name]…` is always classified as that header. */
  lemma ClassifyHeaderLine(n: string, rest: string)
    requires IsWord(n)
    ensures Classify("[" + n + "]" + rest) == Some(Header(n))
  {
    var line := "[" + n + "]" + rest;
    assert forall k :: 1 <= k < 1 + |n| ==> line[k] == n[k - 1];
    WordRunExact(line, 1, |n|);
    assert line[1..1 + |n|] == n;
  }

  /** A key line `key[ws]=rest` is always classified as that key, with the
      value `rest` less one leading whitespace character: `key=` gives the
      empty value and `a=b=c` gives key `a` and value `b=c`. */
  lemma ClassifyKeyLine(k: string, gap: string, rest: string)
    requires k != "" && IsWord(k) && |gap| <= 1 && AllSpace(gap)
    ensures Classify(k + gap + "=" + rest) ==
      Some(Pair(k, if |rest| > 0 && IsSpace(rest[0]) then rest[1..] else rest))
  {
    var line := k + gap + "=" + rest;
    var n := |k|;
    assert forall i :: 0 <= i < n ==> line[i] == k[i];
    assert line[n] == if gap == "" then '=' else gap[0];
    WordRunExact(line, 0, n);
    assert line[..n] == k;
    if gap == "" {
      assert line[n + 1..] == rest;
    } else {
      assert line[n + 1] == '=';
      assert line[n + 2..] == rest;
    }
  }

  /** A non-empty line of whitespace only matches neither alternative. */
  lemma BlankLineRejected(line: string)
    requires line != "" && AllSpace(line)
    ensures Classify(line) == None
  {
    assert IsSpace(line[0]);
    assert WordRun(line, 0) == 0;
  }

  // ---------------------------------------------------------------------
  // Coercion: `_getBool`, `_getInt` and their use in `load`
  // ---------------------------------------------------------------------

  function LowerChar(c: char): char {
    if 'A' <= c <= 'Z' then (c as int + 32) as char else c
  }

  /** `str.lower`, on ASCII letters. */
  function Lower(s: string): string {
    seq(|s|, i requires 0 <= i < |s| => LowerChar(s[i]))
  }

  /** Case-insensitive equality, character by character. */
  predicate EqualsIgnoringCase(a: string, b: string) {
    |a| == |b| && forall i :: 0 <= i < |a| ==> LowerChar(a[i]) == LowerChar(b[i])
  }

  /** `_getBool`: `True`/`False` for any capitalisation of `true`/`false`, `None` otherwise. */
  function GetBool(value: string): Option<bool> {
    var v := Lower(value);
    if v == "true" then Some(true) else if v == "false" then Some(false) else None
  }

  /** `_getBool` recognises exactly the spellings of `true` and `false` in
      any mixture of upper and lower case. */
  lemma GetBoolSpec(value: string)
    ensures GetBool(value) == Some(true) <==> EqualsIgnoringCase(value, "true")
    ensures GetBool(value) == Some(false) <==> EqualsIgnoringCase(value, "false")
    ensures GetBool(value) == None <==> !EqualsIgnoringCase(value, "true") && !EqualsIgnoringCase(value, "false")
  {
    var v := Lower(value);
    assert EqualsIgnoringCase(value, "true") <==> v == "true" by {
      if EqualsIgnoringCase(value, "true") {
        assert forall i :: 0 <= i < 4 ==> v[i] == LowerChar(value[i]) == "true"[i];
      }
    }
    assert EqualsIgnoringCase(value, "false") <==> v == "false" by {
      if EqualsIgnoringCase(value, "false") {
        assert forall i :: 0 <= i < 5 ==> v[i] == LowerChar(value[i]) == "false"[i];
      }
    }
  }

  function StripLeft(s: string): string {
    if |s| > 0 && IsIntSpace(s[0]) then StripLeft(s[1..]) else s
  }

  function StripRight(s: string): string {
    if |s| > 0 && IsIntSpace(s[|s| - 1]) then StripRight(s[..|s| - 1]) else s
  }

  /** The whitespace `int()` ignores around its argument. */
  function Strip(s: string): string {
    StripRight(StripLeft(s))
  }

  /** Digits with single underscores between them: `digit ("_"? digit)*`. */
  predicate IsDigitBody(b: string) {
    |b| > 0 && IsDigit(b[0]) && IsDigit(b[|b| - 1]) &&
    (forall i :: 0 <= i < |b| ==> IsDigit(b[i]) || b[i] == '_') &&
    (forall i :: 0 <= i < |b| - 1 && b[i] == '_' ==> b[i + 1] != '_')
  }

  /** The number of digit characters of `b`, underscores not counted. */
  function DigitCount(b: string): nat {
    if b == [] then 0 else DigitCount(b[..|b| - 1]) + (if IsDigit(b[|b| - 1]) then 1 else 0)
  }

  /** The decimal value of a digit body, underscores skipped. */
  function DigitsValue(b: string): nat {
    if b == [] then 0
    else if IsDigit(b[|b| - 1]) then DigitsValue(b[..|b| - 1]) * 10 + (b[|b| - 1] as int - '0' as int)
    else DigitsValue(b[..|b| - 1])
  }

  /** `int(value)` in base 10: `None` where Python raises `ValueError`. */
  function ParseInt(s: string): Option<int> {
    ParseSigned(Strip(s))
  }

  /** `int()` of a string with no surrounding whitespace: an optional sign and a digit body. */
  function ParseSigned(t: string): Option<int> {
    var body := if |t| > 0 && (t[0] == '+' || t[0] == '-') then t[1..] else t;
    var magnitude: int := DigitsValue(body);
    if IsDigitBody(body) && DigitCount(body) <= MaxStrDigits then
      Some(if |t| > 0 && t[0] == '-' then -magnitude else magnitude)
    else None
  }

  /** `_getInt`: the integer when `int()` succeeds, the input string unchanged otherwise. */
  function GetInt(value: string): Value {
    match ParseInt(value)
    case Some(n) => IntVal(n)
    case None => StrVal(value)
  }

  /** The coercion `load` applies to every value: boolean first, then integer, else text. */
  function Coerce(raw: string): Value {
    var boolVal := GetBool(raw);
    if boolVal.Some? then BoolVal(boolVal.value) else GetInt(raw)
  }

  /** Coercion tries a boolean first, an integer second, and otherwise keeps
      the raw text: any capitalisation of `true`/`false` is a boolean (even
      where `int()` would fail anyway), then whatever `int()` accepts is an
      integer, and everything else stays the text it was. */
  lemma CoercionOrder(raw: string)
    ensures Coerce(raw) == BoolVal(true) <==> EqualsIgnoringCase(raw, "true")
    ensures Coerce(raw) == BoolVal(false) <==> EqualsIgnoringCase(raw, "false")
    ensures Coerce(raw).IntVal? <==>
      !EqualsIgnoringCase(raw, "true") && !EqualsIgnoringCase(raw, "false") && ParseInt(raw).Some?
    ensures Coerce(raw).IntVal? ==> ParseInt(raw) == Some(Coerce(raw).i)
    ensures Coerce(raw).StrVal? <==>
      !EqualsIgnoringCase(raw, "true") && !EqualsIgnoringCase(raw, "false") && ParseInt(raw).None?
    ensures Coerce(raw).StrVal? ==> Coerce(raw).s == raw
  {
    GetBoolSpec(raw);
  }

  /** A value written as an integer, with any whitespace `int()` skips around
      it, is stored as that integer. */
  lemma CoerceIntText(i: int, pre: string, post: string)
    requires AllIntSpace(pre) && AllIntSpace(post)
    requires |Decimal(if i < 0 then -i else i)| <= MaxStrDigits
    ensures Coerce(pre + IntToString(i) + post) == IntVal(i)
  {
    var s := IntToString(i);
    var raw := pre + s + post;
    ParseIntRoundTrip(i, pre, post);
    assert raw[0] == if pre == [] then s[0] else pre[0];
    assert s[0] == '-' || IsDigit(s[0]);
    assert LowerChar(raw[0]) != 't' && LowerChar(raw[0]) != 'f';
    GetBoolSpec(raw);
    assert !EqualsIgnoringCase(raw, "true") && !EqualsIgnoringCase(raw, "false");
  }

  // Decimal rendering, the inverse of `int()` on canonical strings.

  function DigitChar(d: nat): char
    requires d < 10
  {
    ('0' as int + d) as char
  }

  /** `str(n)` for a natural number. */
  function Decimal(n: nat): (s: string)
    ensures |s| > 0 && forall i :: 0 <= i < |s| ==> IsDigit(s[i])
  {
    if n < 10 then [DigitChar(n)] else Decimal(n / 10) + [DigitChar(n % 10)]
  }

  /** `str(i)` for an integer. */
  function IntToString(i: int): string {
    if i < 0 then "-" + Decimal(-i) else Decimal(i)
  }

  /** `str(value)` for a coerced value, as Python prints it. */
  function Render(v: Value): string {
    match v
    case BoolVal(b) => if b then "True" else "False"
    case IntVal(i) => IntToString(i)
    case StrVal(s) => s
  }

  lemma {:induction false} DecimalValue(n: nat)
    ensures DigitsValue(Decimal(n)) == n
  {
    if n >= 10 {
      DecimalValue(n / 10);
      var s := Decimal(n);
      assert s[..|s| - 1] == Decimal(n / 10);
    }
  }

  lemma {:induction false} StripLeftSpaces(pre: string, t: string)
    requires AllIntSpace(pre) && (t == [] || !IsIntSpace(t[0]))
    ensures StripLeft(pre + t) == t
  {
    if pre != [] {
      assert (pre + t)[1..] == pre[1..] + t;
      StripLeftSpaces(pre[1..], t);
    } else {
      assert pre + t == t;
    }
  }

  lemma {:induction false} StripRightSpaces(t: string, post: string)
    requires AllIntSpace(post) && (t == [] || !IsIntSpace(t[|t| - 1]))
    ensures StripRight(t + post) == t
  {
    if post != [] {
      assert (t + post)[..|t + post| - 1] == t + post[..|post| - 1];
      StripRightSpaces(t, post[..|post| - 1]);
    } else {
      assert t + post == t;
    }
  }

  lemma DecimalIsDigitBody(n: nat)
    ensures IsDigitBody(Decimal(n)) && DigitCount(Decimal(n)) == |Decimal(n)|
  {
  }

  lemma StripAround(pre: string, s: string, post: string)
    requires AllIntSpace(pre) && AllIntSpace(post)
    requires s != [] && !IsIntSpace(s[0]) && !IsIntSpace(s[|s| - 1])
    ensures Strip(pre + s + post) == s
  {
    StripLeftSpaces(pre, s + post);
    assert pre + s + post == pre + (s + post);
    StripRightSpaces(s, post);
  }

  lemma ParseSignedDecimal(i: int)
    requires |Decimal(if i < 0 then -i else i)| <= MaxStrDigits
    ensures ParseSigned(IntToString(i)) == Some(i)
  {
    var n := if i < 0 then -i else i;
    DecimalValue(n);
    DecimalIsDigitBody(n);
    if i < 0 {
      assert IntToString(i)[1..] == Decimal(n);
    } else {
      assert IsDigit(Decimal(n)[0]);
    }
  }

  /** `int()` inverts `str()`: the whitespace `int()` skips around the
      rendering is ignored, and only Python's digit limit stands in the way. */
  lemma ParseIntRoundTrip(i: int, pre: string, post: string)
    requires AllIntSpace(pre) && AllIntSpace(post)
    requires |Decimal(if i < 0 then -i else i)| <= MaxStrDigits
    ensures ParseInt(pre + IntToString(i) + post) == Some(i)
  {
    var s := IntToString(i);
    assert s[0] == '-' || IsDigit(s[0]);
    assert IsDigit(s[|s| - 1]);
    StripAround(pre, s, post);
    ParseSignedDecimal(i);
  }

  /** A rendered integer is never read back as a boolean. */
  lemma IntTextIsNotBool(i: int)
    ensures GetBool(IntToString(i)) == None
  {
    var s := IntToString(i);
    assert s[0] == '-' || IsDigit(s[0]);
    assert LowerChar(s[0]) != LowerChar("true"[0]);
    assert LowerChar(s[0]) != LowerChar("false"[0]);
  }

  /** Coercion inverts rendering, for every value whose text would not be
      read back as something else. */
  lemma CoerceRoundTrip(v: Value)
    requires v.IntVal? ==> |Decimal(if v.i < 0 then -v.i else v.i)| <= MaxStrDigits
    requires v.StrVal? ==> GetBool(v.s).None? && ParseInt(v.s).None?
    ensures Coerce(Render(v)) == v
  {
    match v
    case BoolVal(b) =>
      BoolTextIsBool(b);
    case IntVal(i) =>
      IntTextIsNotBool(i);
      IntTextIsInt(i);
    case StrVal(s) =>
  }

  lemma BoolTextIsBool(b: bool)
    ensures GetBool(if b then "True" else "False") == Some(b)
  {
    assert Lower("True") == "true";
    assert Lower("False") == "false";
  }

  lemma IntTextIsInt(i: int)
    requires |Decimal(if i < 0 then -i else i)| <= MaxStrDigits
    ensures ParseInt(IntToString(i)) == Some(i)
  {
    var s := IntToString(i);
    assert s[0] == '-' || IsDigit(s[0]);
    assert IsDigit(s[|s| - 1]);
    assert StripLeft(s) == s;
    assert StripRight(s) == s;
    ParseSignedDecimal(i);
  }

  // ---------------------------------------------------------------------
  // Mappings built from pair lists: `dict(zip(keys, values))`
  // ---------------------------------------------------------------------

  /** `zip`, which stops at the shorter list. */
  function Zip<A, B>(xs: seq<A>, ys: seq<B>): (r: seq<(A, B)>)
    ensures |r| == if |xs| <= |ys| then |xs| else |ys|
    ensures forall i :: 0 <= i < |r| ==> r[i] == (xs[i], ys[i])
  {
    seq(if |xs| <= |ys| then |xs| else |ys|, i requires 0 <= i < |xs| && i < |ys| => (xs[i], ys[i]))
  }

  /** The keys named in a list of pairs. */
  function KeysOf<V>(ps: seq<(string, V)>): set<string> {
    set j | 0 <= j < |ps| :: ps[j].0
  }

  /** `dict(pairs)`: a later pair overwrites an earlier one with the same key. */
  function Dict<V>(ps: seq<(string, V)>): (m: map<string, V>)
    ensures m.Keys == KeysOf(ps)
  {
    if ps == [] then map[]
    else
      var prefix := ps[..|ps| - 1];
      var m := Dict(prefix);
      assert KeysOf(ps) == KeysOf(prefix) + {ps[|ps| - 1].0} by {
        assert forall j :: 0 <= j < |prefix| ==> prefix[j] == ps[j];
      }
      m[ps[|ps| - 1].0 := ps[|ps| - 1].1]
  }

  /** Within one list of pairs a repeated key keeps its last value. */
  lemma {:induction false} DictLast<V>(ps: seq<(string, V)>, j: nat)
    requires j < |ps|
    requires forall j' :: j < j' < |ps| ==> ps[j'].0 != ps[j].0
    ensures ps[j].0 in Dict(ps) && Dict(ps)[ps[j].0] == ps[j].1
  {
    if j < |ps| - 1 {
      var prefix := ps[..|ps| - 1];
      assert prefix[j] == ps[j];
      DictLast(prefix, j);
    }
  }

  function ScalarEntries(d: map<string, Value>): (m: map<string, Entry>)
    ensures m.Keys == d.Keys
  {
    map k | k in d :: Scalar(d[k])
  }

  function SectionEntries(d: map<string, map<string, Value>>): (m: map<string, Entry>)
    ensures m.Keys == d.Keys
  {
    map k | k in d :: Section(d[k])
  }

  // ---------------------------------------------------------------------
  // The meaning of a whole file
  // ---------------------------------------------------------------------

  /** A line that is neither empty nor accepted by the pattern. */
  predicate IsBad(line: string) {
    line != "" && Classify(line).None?
  }

  /** The index of the first bad line, if any. */
  function FirstBad(lines: seq<string>): Option<nat> {
    if lines == [] then None
    else if FirstBad(lines[..|lines| - 1]).Some? then FirstBad(lines[..|lines| - 1])
    else if IsBad(lines[|lines| - 1]) then Some(|lines| - 1)
    else None
  }

  /** `FirstBad` finds the first bad line, and finds one whenever there is one. */
  lemma {:induction false} FirstBadSpec(lines: seq<string>)
    ensures FirstBad(lines).Some? ==>
      var b := FirstBad(lines).value;
      b < |lines| && IsBad(lines[b]) && (forall j :: 0 <= j < b ==> !IsBad(lines[j]))
    ensures FirstBad(lines).None? ==> forall j :: 0 <= j < |lines| ==> !IsBad(lines[j])
  {
    if lines != [] {
      var prefix := lines[..|lines| - 1];
      FirstBadSpec(prefix);
      assert forall j :: 0 <= j < |prefix| ==> prefix[j] == lines[j];
    }
  }

  /** The classified non-empty lines, in order. */
  function Items(lines: seq<string>): seq<Line> {
    if lines == [] then []
    else
      var last := lines[|lines| - 1];
      Items(lines[..|lines| - 1]) + (if last != "" && Classify(last).Some? then [Classify(last).value] else [])
  }

  /** The coerced key/value pairs before the first header. */
  function Leading(items: seq<Line>): seq<(string, Value)> {
    if items == [] || items[0].Header? then []
    else [(items[0].key, Coerce(items[0].raw))] + Leading(items[1..])
  }

  /** Every header's name with the coerced pairs that follow it up to the
      next header or the end, in order of appearance. */
  function Sections(items: seq<Line>): seq<(string, seq<(string, Value)>)> {
    if items == [] then []
    else if items[0].Header? then [(items[0].name, Leading(items[1..]))] + Sections(items[1..])
    else Sections(items[1..])
  }

  /** Each section's pairs turned into its mapping. */
  function Closed(secs: seq<(string, seq<(string, Value)>)>): (r: seq<(string, map<string, Value>)>)
    ensures |r| == |secs|
    ensures forall j :: 0 <= j < |r| ==> r[j] == (secs[j].0, Dict(secs[j].1))
  {
    seq(|secs|, j requires 0 <= j < |secs| => (secs[j].0, Dict(secs[j].1)))
  }

  /** The root mapping: the sectionless pairs, then every section merged
      over them. */
  function Assemble(items: seq<Line>): map<string, Entry> {
    ScalarEntries(Dict(Leading(items))) + SectionEntries(Dict(Closed(Sections(items))))
  }

  /** What `load` returns or raises for a file's lines. */
  function Parse(lines: seq<string>): Result<map<string, Entry>, ParseError> {
    FirstBadSpec(lines);
    match FirstBad(lines)
    case Some(i) => Err(ParseError(lines[i], i + 1))
    case None => Ok(Assemble(Items(lines)))
  }

  /** `load` raises exactly when some line is neither empty nor matched, and
      then reports the first such line, numbered from 1, with its text. */
  lemma ParseErrors(lines: seq<string>)
    ensures Parse(lines).Err? <==> exists i :: 0 <= i < |lines| && IsBad(lines[i])
    ensures Parse(lines).Err? ==>
      var err := Parse(lines).error;
      1 <= err.lineNo <= |lines| && err.text == lines[err.lineNo - 1] &&
      err.text != "" && Classify(err.text).None? &&
      forall j :: 0 <= j < err.lineNo - 1 ==> !IsBad(lines[j])
  {
    FirstBadSpec(lines);
  }

  // ---------------------------------------------------------------------
  // How the pair lists grow line by line
  // ---------------------------------------------------------------------

  /** Reading one more line: a bad line is reported, an empty one adds no
      item, any other adds its classification. */
  lemma StepLine(lines: seq<string>, i: nat)
    requires i < |lines|
    ensures FirstBad(lines[..i + 1]) ==
      if FirstBad(lines[..i]).Some? then FirstBad(lines[..i]) else if IsBad(lines[i]) then Some(i) else None
    ensures Items(lines[..i + 1]) ==
      Items(lines[..i]) + (if lines[i] != "" && Classify(lines[i]).Some? then [Classify(lines[i]).value] else [])
  {
    assert lines[..i + 1][..i] == lines[..i];
  }

  /** The first bad line ends the scan: the result does not depend on what follows it. */
  lemma FirstBadAt(lines: seq<string>, i: nat)
    requires i < |lines| && FirstBad(lines[..i]).None? && IsBad(lines[i])
    ensures FirstBad(lines) == Some(i)
  {
    FirstBadSpec(lines[..i]);
    FirstBadSpec(lines);
    assert forall j :: 0 <= j < i ==> lines[..i][j] == lines[j];
  }

  lemma {:induction false} ItemsConcat(a: seq<string>, b: seq<string>)
    ensures Items(a + b) == Items(a) + Items(b)
  {
    if b != [] {
      var b' := b[..|b| - 1];
      assert (a + b)[..|a + b| - 1] == a + b';
      ItemsConcat(a, b');
    } else {
      assert a + b == a;
    }
  }

  lemma {:induction false} LeadingAppend(items: seq<Line>, x: Line)
    ensures Leading(items + [x]) ==
      if Sections(items) == [] && x.Pair? then Leading(items) + [(x.key, Coerce(x.raw))] else Leading(items)
  {
    if items != [] {
      assert (items + [x])[1..] == items[1..] + [x];
      if items[0].Pair? {
        LeadingAppend(items[1..], x);
      }
    }
  }

  lemma {:induction false} SectionsAppend(items: seq<Line>, x: Line)
    ensures Sections(items + [x]) ==
      if x.Header? then Sections(items) + [(x.name, [])]
      else if Sections(items) == [] then []
      else
        var s := Sections(items);
        s[..|s| - 1] + [(s[|s| - 1].0, s[|s| - 1].1 + [(x.key, Coerce(x.raw))])]
  {
    if items != [] {
      assert (items + [x])[1..] == items[1..] + [x];
      SectionsAppend(items[1..], x);
      if items[0].Header? {
        LeadingAppend(items[1..], x);
      }
    }
  }

  // ---------------------------------------------------------------------
  // `load`
  // ---------------------------------------------------------------------

  /** What `load`'s local lists hold once the lines classified as `items`
      have been read: before the first header the pending `keys`/`values`
      are the sectionless pairs; afterwards `config` holds those, every header
      so far is in `sections`, every closed section's mapping is in `kvList`
      and the pending lists are the open section's pairs. */
  ghost predicate Accumulated(items: seq<Line>, config: map<string, Entry>, kvList: seq<map<string, Value>>,
                              sections: seq<string>, keys: seq<string>, values: seq<Value>,
                              currentSection: Option<string>)
  {
    var secs := Sections(items);
    |keys| == |values| &&
    (currentSection.None? <==> secs == []) &&
    (currentSection.None? ==>
      config == map[] && sections == [] && kvList == [] && Zip(keys, values) == Leading(items)) &&
    (currentSection.Some? ==>
      config == ScalarEntries(Dict(Leading(items))) && OpenSections(secs, sections, kvList, Zip(keys, values)))
  }

  /** After at least one header: `sections` names every section so far,
      `kvList` holds the mappings of all but the last, and `pending` is the
      last one's pairs. */
  ghost predicate OpenSections(secs: seq<(string, seq<(string, Value)>)>, sections: seq<string>,
                               kvList: seq<map<string, Value>>, pending: seq<(string, Value)>)
  {
    |sections| == |secs| == |kvList| + 1 &&
    (forall j :: 0 <= j < |sections| ==> sections[j] == secs[j].0) &&
    (forall j :: 0 <= j < |kvList| ==> kvList[j] == Dict(secs[j].1)) &&
    pending == secs[|kvList|].1
  }

  lemma OpenSectionsPair(secs: seq<(string, seq<(string, Value)>)>, sections: seq<string>,
                         kvList: seq<map<string, Value>>, pending: seq<(string, Value)>, pair: (string, Value))
    requires OpenSections(secs, sections, kvList, pending)
    ensures var n := |secs|;
      OpenSections(secs[..n - 1] + [(secs[n - 1].0, secs[n - 1].1 + [pair])], sections, kvList, pending + [pair])
  {
  }

  lemma OpenSectionsHeader(secs: seq<(string, seq<(string, Value)>)>, sections: seq<string>,
                           kvList: seq<map<string, Value>>, pending: seq<(string, Value)>, name: string)
    requires OpenSections(secs, sections, kvList, pending)
    ensures OpenSections(secs + [(name, [])], sections + [name], kvList + [Dict(pending)], [])
  {
  }

  lemma OpenSectionsClose(secs: seq<(string, seq<(string, Value)>)>, sections: seq<string>,
                          kvList: seq<map<string, Value>>, pending: seq<(string, Value)>)
    requires OpenSections(secs, sections, kvList, pending)
    ensures Zip(sections, kvList + [Dict(pending)]) == Closed(secs)
  {
  }

  lemma ZipAppend<A, B>(xs: seq<A>, ys: seq<B>, x: A, y: B)
    requires |xs| == |ys|
    ensures Zip(xs + [x], ys + [y]) == Zip(xs, ys) + [(x, y)]
  {
  }

  lemma AccumulatePair(items: seq<Line>, config: map<string, Entry>, kvList: seq<map<string, Value>>,
                       sections: seq<string>, keys: seq<string>, values: seq<Value>,
                       currentSection: Option<string>, key: string, raw: string)
    requires Accumulated(items, config, kvList, sections, keys, values, currentSection)
    ensures Accumulated(items + [Pair(key, raw)], config, kvList, sections, keys + [key], values + [Coerce(raw)], currentSection)
  {
    var x := Pair(key, raw);
    var pair := (key, Coerce(raw));
    ZipAppend(keys, values, key, Coerce(raw));
    LeadingAppend(items, x);
    SectionsAppend(items, x);
    if currentSection.Some? {
      OpenSectionsPair(Sections(items), sections, kvList, Zip(keys, values), pair);
    }
  }

  lemma AccumulateFirstHeader(items: seq<Line>, config: map<string, Entry>, kvList: seq<map<string, Value>>,
                              sections: seq<string>, keys: seq<string>, values: seq<Value>, name: string)
    requires Accumulated(items, config, kvList, sections, keys, values, None)
    ensures Accumulated(items + [Header(name)], config + ScalarEntries(Dict(Zip(keys, values))), kvList,
                        sections + [name], [], [], Some(name))
  {
    LeadingAppend(items, Header(name));
    SectionsAppend(items, Header(name));
    var root := ScalarEntries(Dict(Zip(keys, values)));
    assert config + root == root;
    var none: seq<(string, Value)> := [];
    assert Zip([], []) == none;
    assert OpenSections([(name, none)], [name], [], none);
  }

  lemma AccumulateNextHeader(items: seq<Line>, config: map<string, Entry>, kvList: seq<map<string, Value>>,
                             sections: seq<string>, keys: seq<string>, values: seq<Value>,
                             current: string, name: string)
    requires Accumulated(items, config, kvList, sections, keys, values, Some(current))
    ensures Accumulated(items + [Header(name)], config, kvList + [Dict(Zip(keys, values))],
                        sections + [name], [], [], Some(name))
  {
    LeadingAppend(items, Header(name));
    SectionsAppend(items, Header(name));
    OpenSectionsHeader(Sections(items), sections, kvList, Zip(keys, values), name);
  }

  lemma AccumulateEnd(items: seq<Line>, config: map<string, Entry>, kvList: seq<map<string, Value>>,
                      sections: seq<string>, keys: seq<string>, values: seq<Value>,
                      currentSection: Option<string>)
    requires Accumulated(items, config, kvList, sections, keys, values, currentSection)
    ensures currentSection.Some? ==>
      config + SectionEntries(Dict(Zip(sections, kvList + [Dict(Zip(keys, values))]))) == Assemble(items)
    ensures currentSection.None? ==>
      config + ScalarEntries(Dict(Zip(keys, values))) + SectionEntries(Dict(Zip(sections, kvList))) == Assemble(items)
  {
    if currentSection.Some? {
      OpenSectionsClose(Sections(items), sections, kvList, Zip(keys, values));
    } else {
      assert Zip(sections, kvList) == Closed(Sections(items));
    }
  }

  /** The body of `load`'s loop for one matched line: a pair is appended to
      the current key and value lists; a header closes the pending group (into
      the root before the first header, into `kvList` after it) and opens a
      new section. */
  method ConsumeItem(ghost items: seq<Line>, item: Line,
                     config: map<string, Entry>, kvList: seq<map<string, Value>>, sections: seq<string>,
                     keys: seq<string>, values: seq<Value>, currentSection: Option<string>)
    returns (config': map<string, Entry>, kvList': seq<map<string, Value>>, sections': seq<string>,
             keys': seq<string>, values': seq<Value>, currentSection': Option<string>)
    requires Accumulated(items, config, kvList, sections, keys, values, currentSection)
    ensures Accumulated(items + [item], config', kvList', sections', keys', values', currentSection')
  {
    config', kvList', sections', keys', values', currentSection' := config, kvList, sections, keys, values, currentSection;
    match item
    case Pair(key, raw) =>
      AccumulatePair(items, config, kvList, sections, keys, values, currentSection, key, raw);
      keys' := keys + [key];
      values' := values + [Coerce(raw)];
    case Header(name) =>
      if currentSection.Some? {
        AccumulateNextHeader(items, config, kvList, sections, keys, values, currentSection.value, name);
        kvList' := kvList + [Dict(Zip(keys, values))];
      } else {
        AccumulateFirstHeader(items, config, kvList, sections, keys, values, name);
        config' := config + ScalarEntries(Dict(Zip(keys, values)));
      }
      keys' := [];
      values' := [];
      currentSection' := Some(name);
      sections' := sections + [name];
  }

  /** The end of `load`: the pending pairs go to the last section, or to the
      root when there was no header, and then every section's mapping is
      merged into the root under its name. */
  method Finish(ghost items: seq<Line>, config: map<string, Entry>, kvList: seq<map<string, Value>>,
                sections: seq<string>, keys: seq<string>, values: seq<Value>, currentSection: Option<string>)
    returns (root: map<string, Entry>)
    requires Accumulated(items, config, kvList, sections, keys, values, currentSection)
    ensures root == Assemble(items)
  {
    AccumulateEnd(items, config, kvList, sections, keys, values, currentSection);
    var kvList', config' := kvList, config;
    if currentSection.Some? {
      kvList' := kvList + [Dict(Zip(keys, values))];
    } else {
      config' := config + ScalarEntries(Dict(Zip(keys, values)));
    }
    root := config' + SectionEntries(Dict(Zip(sections, kvList')));
  }

  /** `IniFileParser.load` over the already split lines. `splitlines()`
      leaves no `\n` in a line, which is what lets `(?<!.)` stand for
      column 0 and `.*` for the rest of the line in `Classify`. */
  method Load(lines: seq<string>) returns (r: Result<map<string, Entry>, ParseError>)
    requires forall l <- lines :: '\n' !in l
    ensures r == Parse(lines)
  {
    var config: map<string, Entry> := map[];
    var kvList: seq<map<string, Value>> := [];
    var sections: seq<string> := [];
    var keys: seq<string> := [];
    var values: seq<Value> := [];
    var currentSection: Option<string> := None;
    var i := 0;
    ghost var items: seq<Line> := [];
    while i < |lines|
      invariant 0 <= i <= |lines|
      invariant FirstBad(lines[..i]).None?
      invariant items == Items(lines[..i])
      invariant Accumulated(items, config, kvList, sections, keys, values, currentSection)
    {
      var line := lines[i];
      StepLine(lines, i);
      if line == "" {
        assert Items(lines[..i + 1]) == items + [];
      } else {
        var found := Classify(line);
        if found.None? {
          FirstBadAt(lines, i);
          return Err(ParseError(line, i + 1));
        }
        config, kvList, sections, keys, values, currentSection :=
          ConsumeItem(items, found.value, config, kvList, sections, keys, values, currentSection);
        items := items + [found.value];
      }
      i := i + 1;
    }
    assert lines[..i] == lines;
    config := Finish(items, config, kvList, sections, keys, values, currentSection);
    r := Ok(config);
  }

  // ---------------------------------------------------------------------
  // Properties of the result
  // ---------------------------------------------------------------------

  /** Empty lines add nothing: inserting one leaves every successful parse unchanged. */
  lemma EmptyLineIgnored(lines: seq<string>, k: nat)
    requires k <= |lines|
    requires Parse(lines).Ok?
    ensures Parse(lines[..k] + [""] + lines[k..]) == Parse(lines)
  {
    var ins := lines[..k] + [""] + lines[k..];
    assert FirstBad(lines).None?;
    InsertKeepsGood(lines, k);
    ItemsSkipEmpty(lines[..k], lines[k..]);
    assert lines[..k] + lines[k..] == lines;
  }

  lemma InsertKeepsGood(lines: seq<string>, k: nat)
    requires k <= |lines| && FirstBad(lines).None?
    ensures FirstBad(lines[..k] + [""] + lines[k..]).None?
  {
    var ins := lines[..k] + [""] + lines[k..];
    FirstBadSpec(lines);
    forall j | 0 <= j < |ins| ensures !IsBad(ins[j]) {
      InsertedAt(lines, k, "", j);
    }
    FirstBadSpec(ins);
  }

  lemma InsertedAt<T>(s: seq<T>, k: nat, x: T, j: nat)
    requires k <= |s| && j <= |s|
    ensures var ins := s[..k] + [x] + s[k..];
      ins[j] == if j < k then s[j] else if j == k then x else s[j - 1]
  {
  }

  lemma ItemsSkipEmpty(a: seq<string>, b: seq<string>)
    ensures Items(a + [""] + b) == Items(a + b)
  {
    ItemsConcat(a + [""], b);
    ItemsEmptyLine(a);
    ItemsConcat(a, b);
  }

  lemma ItemsEmptyLine(a: seq<string>)
    ensures Items(a + [""]) == Items(a)
  {
    assert (a + [""])[..|a|] == a;
  }

  /** The root holds exactly the sectionless keys and the section names. */
  lemma RootKeys(items: seq<Line>)
    ensures Assemble(items).Keys == KeysOf(Leading(items)) + KeysOf(Sections(items))
  {
    var secs := Sections(items);
    var closed := Closed(secs);
    assert KeysOf(closed) == KeysOf(secs) by {
      assert forall j :: 0 <= j < |secs| ==> closed[j].0 == secs[j].0;
    }
  }

  /** A section's mapping is the one of the LAST header with its name, and it
      replaces any sectionless value under the same key. */
  lemma SectionEntry(items: seq<Line>, j: nat)
    requires j < |Sections(items)|
    requires forall j' :: j < j' < |Sections(items)| ==> Sections(items)[j'].0 != Sections(items)[j].0
    ensures Assemble(items)[Sections(items)[j].0] == Section(Dict(Sections(items)[j].1))
  {
    var secs := Sections(items);
    var closed := Closed(secs);
    DictLast(closed, j);
  }

  /** A sectionless key keeps its LAST value, unless a section has its name. */
  lemma SectionlessEntry(items: seq<Line>, j: nat)
    requires j < |Leading(items)|
    requires forall j' :: j < j' < |Leading(items)| ==> Leading(items)[j'].0 != Leading(items)[j].0
    requires forall s :: 0 <= s < |Sections(items)| ==> Sections(items)[s].0 != Leading(items)[j].0
    ensures Assemble(items)[Leading(items)[j].0] == Scalar(Leading(items)[j].1)
  {
    var lead := Leading(items);
    var closed := Closed(Sections(items));
    DictLast(lead, j);
    assert lead[j].0 !in Dict(closed);
  }
}
