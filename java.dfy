/** The few behaviours of java.lang and java.util.regex that the capture core relies on:
    outcomes of calls that may throw, Java values as the interceptors see them, decimal
    text of an int and Integer.parseInt, String.trim, the regex classes \s and \w,
    and String.replaceFirst with the one-character pattern "\\?". */
module Java {

  newtype byte = x: int | 0 <= x < 256

  type int32 = x: int | -0x8000_0000 <= x < 0x8000_0000
  type int64 = x: int | -0x8000_0000_0000_0000 <= x < 0x8000_0000_0000_0000

  datatype Option<+T> = None | Some(value: T)

  /** The exceptions that leave a modelled operation. */
  datatype Exc =
    | NullPointer(what: string)
    | IllegalArgument(what: string)
    | IndexOutOfBounds(what: string)
    | NoSuchField(name: string)
    | Reflection(what: string)
    | NumberFormat(input: string)
    | UnsupportedEncoding(charset: string)
    | IO(what: string)
    | Raised(name: string)   // thrown by a collaborator outside the model

  /** The exceptions that are an IOException: IOException itself and its subclass
      UnsupportedEncodingException. */
  predicate IsIOException(e: Exc)
  {
    e.IO? || e.UnsupportedEncoding?
  }

  /** How a Java call completes: it returns a value or it throws. */
  datatype Outcome<+T> = Returned(value: T) | Threw(exc: Exc)

  /** A Java value as the interceptors and the error controller see it. `Date.formatted` is the
      text SimpleDateFormat("yyyy-MM-dd HH:mm:ss.SSS") gives for it, `text` the result of toString. */
  datatype JObject =
    | Null
    | Str(chars: string)
    | Chr(ch: char)
    | Int(i: int32)
    | Long(l: int64)
    | Date(dateClass: string, text: string, formatted: string)
    | List(listClass: string, size: nat, text: string)
    | Other(otherClass: string, text: string)
  {
    function ClassName(): string
      requires !Null?
    {
      match this
      case Str(_) => "java.lang.String"
      case Chr(_) => "java.lang.Character"
      case Int(_) => "java.lang.Integer"
      case Long(_) => "java.lang.Long"
      case Date(c, _, _) => c
      case List(c, _, _) => c
      case Other(c, _) => c
    }

    function ToString(): string
      requires !Null?
    {
      match this
      case Str(s) => s
      case Chr(c) => [c]
      case Int(i) => DecimalString(i)
      case Long(l) => DecimalString(l)
      case Date(_, t, _) => t
      case List(_, _, t) => t
      case Other(_, t) => t
    }
  }

  // ---------------------------------------------------------------- decimal text

  predicate IsDigit(c: char) { '0' <= c <= '9' }

  predicate AllDigits(s: string) { forall k :: 0 <= k < |s| ==> IsDigit(s[k]) }

  function DigitChar(d: nat): char
    requires d < 10
  {
    "0123456789"[d]
  }

  /** The decimal digits of n, most significant first, without leading zeros. */
  function Digits(n: nat): (r: string)
    ensures r != [] && AllDigits(r)
    decreases n
  {
    if n < 10 then [DigitChar(n)] else Digits(n / 10) + [DigitChar(n % 10)]
  }

  /** Integer.toString / Long.toString. */
  function DecimalString(i: int): (r: string)
    ensures r != []
  {
    if i < 0 then "-" + Digits(-i) else Digits(i)
  }

  function DigitsValue(s: string): nat
    requires AllDigits(s)
  {
    if s == [] then 0 else DigitsValue(s[..|s| - 1]) * 10 + (s[|s| - 1] as int - '0' as int)
  }

  /** Integer.parseInt(s, 10) for ASCII digits: an optional sign, at least one digit, and a
      value that fits in 32 bits; anything else throws NumberFormatException. */
  function ParseInt(s: string): (r: Outcome<int32>)
    ensures r.Returned? ==> s != [] && |s| > (if s[0] == '-' || s[0] == '+' then 1 else 0)
    ensures r.Returned? ==> AllDigits(if s[0] == '-' || s[0] == '+' then s[1..] else s)
    ensures r.Threw? ==> r.exc == NumberFormat(s)
  {
    if s == [] then Threw(NumberFormat(s))
    else
      var digits := if s[0] == '-' || s[0] == '+' then s[1..] else s;
      if digits == [] || !AllDigits(digits) then Threw(NumberFormat(s))
      else
        var v: int := if s[0] == '-' then -(DigitsValue(digits) as int) else DigitsValue(digits);
        if -0x8000_0000 <= v < 0x8000_0000 then Returned(v) else Threw(NumberFormat(s))
  }

  lemma {:induction false} DigitsValueOfDigits(n: nat)
    ensures DigitsValue(Digits(n)) == n
    decreases n
  {
    if n >= 10 {
      var init := Digits(n / 10);
      var s := init + [DigitChar(n % 10)];
      assert s[..|s| - 1] == init;
      DigitsValueOfDigits(n / 10);
    }
  }

  /** Unsigned digit text within the int range parses to its value. */
  lemma ParseIntOfDigits(d: string)
    requires d != [] && AllDigits(d) && DigitsValue(d) < 0x8000_0000
    ensures ParseInt(d) == Returned(DigitsValue(d) as int32)
  {
    assert IsDigit(d[0]);
  }

  /** Digit text whose value does not fit in an int is refused. */
  lemma ParseIntOutOfRange(d: string)
    requires d != [] && AllDigits(d) && DigitsValue(d) >= 0x8000_0000
    ensures ParseInt(d).Threw?
  {
    assert IsDigit(d[0]);
  }

  /** A minus sign before digit text whose value is at most 2^31 parses to the negation. */
  lemma ParseIntOfNegated(d: string)
    requires d != [] && AllDigits(d) && DigitsValue(d) <= 0x8000_0000
    ensures ParseInt("-" + d) == Returned(-(DigitsValue(d) as int) as int32)
  {
    var s := "-" + d;
    assert s[0] == '-' && s[1..] == d;
  }

  /** Integer.parseInt(Integer.toString(i)) == i: the decimal text of an int parses back to it. */
  lemma ParseIntOfDecimalString(i: int32)
    ensures ParseInt(DecimalString(i)) == Returned(i)
  {
    var n: nat := if i < 0 then -(i as int) else i as int;
    var d := Digits(n);
    DigitsValueOfDigits(n);
    if i < 0 {
      assert DecimalString(i) == "-" + d;
      ParseIntOfNegated(d);
    } else {
      assert DecimalString(i) == d;
      ParseIntOfDigits(d);
    }
  }

  // ---------------------------------------------------------------- characters and trim

  /** `\s` of java.util.regex without UNICODE_CHARACTER_CLASS: [ \t\n\x0B\f\r]. */
  predicate IsRegexSpace(c: char)
  {
    c == ' ' || c == '\t' || c == '\n' || c == '\U{000B}' || c == '\U{000C}' || c == '\r'
  }

  /** `\w` of java.util.regex without UNICODE_CHARACTER_CLASS: [a-zA-Z_0-9]. */
  predicate IsWordChar(c: char)
  {
    ('a' <= c <= 'z') || ('A' <= c <= 'Z') || IsDigit(c) || c == '_'
  }

  /** Characters String.trim removes from either end: every code point up to U+0020. */
  predicate IsTrimmable(c: char) { c <= ' ' }

  function LowerAscii(c: char): char
  {
    if 'A' <= c <= 'Z' then (c as int + 32) as char else c
  }

  function LeadingTrimmable(s: string): (n: nat)
    ensures n <= |s|
    ensures forall k :: 0 <= k < n ==> IsTrimmable(s[k])
    ensures n < |s| ==> !IsTrimmable(s[n])
  {
    if s == [] || !IsTrimmable(s[0]) then 0 else 1 + LeadingTrimmable(s[1..])
  }

  function TrailingTrimmable(s: string): (n: nat)
    ensures n <= |s|
    ensures forall k :: |s| - n <= k < |s| ==> IsTrimmable(s[k])
    ensures n < |s| ==> !IsTrimmable(s[|s| - n - 1])
  {
    if s == [] || !IsTrimmable(s[|s| - 1]) then 0 else 1 + TrailingTrimmable(s[..|s| - 1])
  }

  /** The trailing run of trimmable characters of s[a..] is the trailing run of s. */
  lemma TrimEnds(s: string, a: nat, rest: string, n: nat)
    requires a <= |s| && rest == s[a..] && n <= |rest|
    requires forall k :: |rest| - n <= k < |rest| ==> IsTrimmable(rest[k])
    requires n < |rest| ==> !IsTrimmable(rest[|rest| - n - 1])
    ensures a <= |s| - n
    ensures forall k :: |s| - n <= k < |s| ==> IsTrimmable(s[k])
    ensures a < |s| - n ==> !IsTrimmable(s[|s| - n - 1])
  {
    assert forall k :: |s| - n <= k < |s| ==> s[k] == rest[k - a];
  }

  /** String.trim: the slice between the first and the last character above U+0020. */
  function Trim(s: string): (r: string)
    ensures r == [] || (!IsTrimmable(r[0]) && !IsTrimmable(r[|r| - 1]))
    ensures exists a, b ::
              && 0 <= a <= b <= |s| && r == s[a..b]
              && (forall k :: 0 <= k < a ==> IsTrimmable(s[k]))
              && (forall k :: b <= k < |s| ==> IsTrimmable(s[k]))
  {
    var a := LeadingTrimmable(s);
    var n := TrailingTrimmable(s[a..]);
    TrimEnds(s, a, s[a..], n);
    s[a..|s| - n]
  }

  /** Trimming a string whose ends are both above U+0020 changes nothing. */
  lemma TrimUntrimmable(s: string)
    requires s == [] || (!IsTrimmable(s[0]) && !IsTrimmable(s[|s| - 1]))
    ensures Trim(s) == s
  {
    if s != [] {
      assert LeadingTrimmable(s) == 0;
      assert s[0..] == s;
      assert TrailingTrimmable(s) == 0;
    }
  }

  // ---------------------------------------------------------------- searching

  /** String.indexOf(c, i): the leftmost position of c at or after i. */
  function IndexFrom(s: string, c: char, i: nat): (r: Option<nat>)
    requires i <= |s|
    ensures r.Some? ==> i <= r.value < |s| && s[r.value] == c && forall k :: i <= k < r.value ==> s[k] != c
    ensures r.None? ==> forall k :: i <= k < |s| ==> s[k] != c
    decreases |s| - i
  {
    if i == |s| then None
    else if s[i] == c then Some(i)
    else IndexFrom(s, c, i + 1)
  }

  /** String.indexOf(c): the leftmost position of c. */
  function IndexOf(s: string, c: char): (r: Option<nat>)
    ensures r.Some? ==> r.value < |s| && s[r.value] == c && c !in s[..r.value]
    ensures r.None? ==> c !in s
  {
    var r := IndexFrom(s, c, 0);
    if r.Some? then
      assert forall k :: 0 <= k < r.value ==> s[..r.value][k] != c;
      r
    else
      r
  }

  /** t occurs in s starting at position i. */
  predicate OccursAt(s: string, t: string, i: int)
  {
    0 <= i <= |s| - |t| && s[i..i + |t|] == t
  }

  /** String.contains(t): t occurs somewhere in s, case-sensitively. */
  function Contains(s: string, t: string): (r: bool)
    ensures r <==> exists i :: OccursAt(s, t, i)
    decreases |s|
  {
    if |t| <= |s| && s[..|t|] == t then
      assert OccursAt(s, t, 0);
      true
    else if |s| <= |t| then
      assert forall i :: OccursAt(s, t, i) ==> i == 0;
      false
    else
      var r := Contains(s[1..], t);
      assert forall i :: OccursAt(s, t, i) && i >= 1 ==> OccursAt(s[1..], t, i - 1) by {
        forall i | OccursAt(s, t, i) && i >= 1 ensures OccursAt(s[1..], t, i - 1) {
          assert s[1..][i - 1..i - 1 + |t|] == s[i..i + |t|];
        }
      }
      assert r ==> exists i :: OccursAt(s, t, i) by {
        if r {
          var j :| OccursAt(s[1..], t, j);
          assert s[j + 1..j + 1 + |t|] == s[1..][j..j + |t|];
          assert OccursAt(s, t, j + 1);
        }
      }
      r
  }

  // ---------------------------------------------------------------- String.replaceFirst("\\?", repl)

  function DropLeadingZeros(s: string): (r: string)
    ensures |r| <= |s| && (r == [] || r[0] != '0')
  {
    if s != [] && s[0] == '0' then DropLeadingZeros(s[1..]) else s
  }

  function Prepend(p: string, o: Outcome<string>): (r: Outcome<string>)
    ensures r.Threw? <==> o.Threw?
  {
    match o
    case Returned(t) => Returned(p + t)
    case Threw(e) => Threw(e)
  }

  /** Matcher.appendReplacement's expansion of a replacement string for a pattern with no
      capturing groups: "\c" stands for c, "$0" (with any further zeros) for the matched
      text `group`, and every other use of '$' or a trailing '\' throws. */
  function ExpandReplacement(repl: string, group: string): Outcome<string>
    decreases |repl|
  {
    if repl == [] then Returned([])
    else if repl[0] == '\\' then
      if |repl| == 1 then Threw(IllegalArgument("character to be escaped is missing"))
      else Prepend([repl[1]], ExpandReplacement(repl[2..], group))
    else if repl[0] == '$' then
      if |repl| == 1 then Threw(IllegalArgument("Illegal group reference: group index is missing"))
      else if repl[1] == '{' then Threw(IllegalArgument("No group with name"))
      else if repl[1] == '0' then Prepend(group, ExpandReplacement(DropLeadingZeros(repl[2..]), group))
      else if IsDigit(repl[1]) then Threw(IndexOutOfBounds("No group " + [repl[1]]))
      else Threw(IllegalArgument("Illegal group reference"))
    else Prepend([repl[0]], ExpandReplacement(repl[1..], group))
  }

  /** A replacement in which '$' and '\' do not occur, so that it is inserted literally. */
  predicate LiteralReplacement(t: string)
  {
    forall k :: 0 <= k < |t| ==> t[k] != '$' && t[k] != '\\'
  }

  lemma {:induction false} ExpandLiteral(repl: string, group: string)
    requires LiteralReplacement(repl)
    ensures ExpandReplacement(repl, group) == Returned(repl)
    decreases |repl|
  {
    if repl != [] {
      ExpandLiteral(repl[1..], group);
      assert [repl[0]] + repl[1..] == repl;
    }
  }

  /** s.replaceFirst("\\?", repl) with repl possibly Java null: a null replacement throws
      NullPointerException before the search; otherwise the leftmost '?' is replaced by the
      expanded replacement, and a string without '?' comes back unchanged. */
  function ReplaceFirstPlaceholder(s: string, repl: Option<string>): Outcome<string>
  {
    if repl.None? then Threw(NullPointer("replacement"))
    else match IndexOf(s, '?')
      case None => Returned(s)
      case Some(i) =>
        match ExpandReplacement(repl.value, "?")
        case Threw(e) => Threw(e)
        case Returned(t) => Returned(s[..i] + t + s[i + 1..])
  }

  /** With a literal replacement, replaceFirst splices it in at the leftmost '?'. */
  lemma ReplaceFirstLiteral(s: string, t: string)
    requires LiteralReplacement(t)
    ensures ReplaceFirstPlaceholder(s, Some(t)) ==
      match IndexOf(s, '?')
      case None => Returned(s)
      case Some(i) => Returned(s[..i] + t + s[i + 1..])
  {
    ExpandLiteral(t, "?");
  }
}
