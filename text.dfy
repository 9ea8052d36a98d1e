/** The pieces of Go's fmt, strings and text/template packages that the queue
    uses to build statement texts: `%s`-only Sprintf, template substitution,
    decimal printing of int64 values, fmt.Sprint of an []int64, strings.Replace
    with n = -1, and strings.Trim. */
module Text {
  import Gq

  /** The parts with `sep` between neighbours (strings.Join). */
  function Join(parts: seq<string>, sep: string): string
  {
    if parts == [] then ""
    else if |parts| == 1 then parts[0]
    else parts[0] + sep + Join(parts[1..], sep)
  }

  function Repeat(s: string, n: nat): seq<string>
  {
    if n == 0 then [] else [s] + Repeat(s, n - 1)
  }

  // ---------------------------------------------------------------------------
  // Formatting

  /** A Go format string whose only verbs are `%s`, held as the literal text
      between the verbs: "a%sb%sc" is ["a", "b", "c"] (and [] is the empty
      format, like [""]). */
  type Format = seq<string>

  /** A text/template whose only action is `{{.TableName}}`, held as the
      literal text between the actions. */
  type Template = seq<string>

  /** fmt.Sprintf: each `%s` takes the next argument; a verb with no argument
      left prints `%!s(MISSING)`, and unused arguments are listed at the end. */
  function Sprintf(format: Format, args: seq<string>): string
    decreases |format|
  {
    if |format| <= 1 then (if format == [] then "" else format[0]) + Extra(args)
    else
      format[0] + (if args == [] then "%!s(MISSING)" else args[0])
      + Sprintf(format[1..], if args == [] then [] else args[1..])
  }

  function Extra(args: seq<string>): string
  {
    if args == [] then ""
    else "%!(EXTRA " + Join(seq(|args|, i requires 0 <= i < |args| => "string=" + args[i]), ", ") + ")"
  }

  /** Template execution with the data value `{TableName: name}`: every action
      prints the name (text/template does no escaping). */
  function Execute(template: Template, name: string): string
  {
    Join(template, name)
  }

  /** A format whose every argument is the same string fills each verb with it:
      the text is the one a template with an action at each verb would print. */
  lemma {:induction false} SprintfFillsEveryVerb(format: Format, arg: string)
    requires |format| > 0
    ensures Sprintf(format, Repeat(arg, |format| - 1)) == Execute(format, arg)
    decreases |format|
  {
    if |format| > 1 {
      var rest: Format := format[1..];
      SprintfFillsEveryVerb(rest, arg);
      assert Repeat(arg, |format| - 1)[1..] == Repeat(arg, |rest| - 1);
    }
  }

  // Unrolled forms of short formats and templates, for texts whose pieces are
  // long literals: the unrolling is proved here once, over variables.

  lemma Sprintf1(f: Format)
    requires |f| == 1
    ensures Sprintf(f, []) == f[0]
  {
    assert Extra([]) == "";
    assert f[0] + "" == f[0];
  }

  lemma Sprintf2(f: Format, a: string)
    requires |f| == 2
    ensures Sprintf(f, [a]) == f[0] + a + f[1]
  {
    var rest: Format := f[1..];
    Sprintf1(rest);
    assert Sprintf(f, [a]) == f[0] + a + Sprintf(rest, []);
  }

  lemma Sprintf3(f: Format, a: string, b: string)
    requires |f| == 3
    ensures Sprintf(f, [a, b]) == f[0] + a + f[1] + b + f[2]
  {
    var rest: Format := f[1..];
    Sprintf2(rest, b);
    assert [a, b][1..] == [b];
    var x := f[0] + a;
    assert Sprintf(f, [a, b]) == x + (f[1] + b + f[2]);
    Gq.Assoc(x, f[1] + b, f[2]);
    Gq.Assoc(x, f[1], b);
  }

  /** A join read from its end: all parts but the last, the separator, the
      last part. */
  lemma {:induction false} JoinFromEnd(parts: seq<string>, sep: string)
    requires |parts| >= 2
    ensures Join(parts, sep) == Join(parts[..|parts| - 1], sep) + sep + parts[|parts| - 1]
    decreases |parts|
  {
    var n := |parts|;
    var init := parts[..n - 1];
    if n == 2 {
      assert Join(init, sep) == parts[0];
      assert Join(parts[1..], sep) == parts[1];
    } else {
      var rest := parts[1..];
      JoinFromEnd(rest, sep);
      assert rest[..|rest| - 1] == init[1..];
      var h := parts[0] + sep;
      var j := Join(init[1..], sep);
      assert Join(parts, sep) == h + (j + sep + parts[n - 1]);
      Gq.Assoc(h, j + sep, parts[n - 1]);
      Gq.Assoc(h, j, sep);
      assert Join(init, sep) == h + j;
    }
  }

  /** Templates whose every piece after the first starts with a name suffix
      `k` and goes on with a literal `b`: executed, each action's text and the
      suffix after it read as one term. */
  lemma Regroup2(t: Template, p: string, k1: string, b1: string)
    requires |t| == 2 && t[1] == k1 + b1
    ensures Join(t, p) == t[0] + (p + k1) + b1
  {
    JoinFromEnd(t, p);
    assert Join(t[..1], p) == t[0];
    Piece(t[0], p, k1, b1);
  }

  lemma Regroup3(t: Template, p: string, k1: string, b1: string, k2: string, b2: string)
    requires |t| == 3 && t[1] == k1 + b1 && t[2] == k2 + b2
    ensures Join(t, p) == t[0] + (p + k1) + b1 + (p + k2) + b2
  {
    JoinFromEnd(t, p);
    Regroup2(t[..2], p, k1, b1);
    Piece(t[0] + (p + k1) + b1, p, k2, b2);
  }

  lemma Regroup4(t: Template, p: string, k1: string, b1: string, k2: string, b2: string, k3: string, b3: string)
    requires |t| == 4 && t[1] == k1 + b1 && t[2] == k2 + b2 && t[3] == k3 + b3
    ensures Join(t, p) == t[0] + (p + k1) + b1 + (p + k2) + b2 + (p + k3) + b3
  {
    JoinFromEnd(t, p);
    Regroup3(t[..3], p, k1, b1, k2, b2);
    Piece(t[0] + (p + k1) + b1 + (p + k2) + b2, p, k3, b3);
  }

  lemma Regroup5(t: Template, p: string, k1: string, b1: string, k2: string, b2: string, k3: string, b3: string,
                 k4: string, b4: string)
    requires |t| == 5 && t[1] == k1 + b1 && t[2] == k2 + b2 && t[3] == k3 + b3 && t[4] == k4 + b4
    ensures Join(t, p) == t[0] + (p + k1) + b1 + (p + k2) + b2 + (p + k3) + b3 + (p + k4) + b4
  {
    JoinFromEnd(t, p);
    Regroup4(t[..4], p, k1, b1, k2, b2, k3, b3);
    Piece(t[0] + (p + k1) + b1 + (p + k2) + b2 + (p + k3) + b3, p, k4, b4);
  }

  lemma Regroup6(t: Template, p: string, k1: string, b1: string, k2: string, b2: string, k3: string, b3: string,
                 k4: string, b4: string, k5: string, b5: string)
    requires |t| == 6 && t[1] == k1 + b1 && t[2] == k2 + b2 && t[3] == k3 + b3 && t[4] == k4 + b4
    requires t[5] == k5 + b5
    ensures Join(t, p) == t[0] + (p + k1) + b1 + (p + k2) + b2 + (p + k3) + b3 + (p + k4) + b4 + (p + k5) + b5
  {
    JoinFromEnd(t, p);
    Regroup5(t[..5], p, k1, b1, k2, b2, k3, b3, k4, b4);
    Piece(t[0] + (p + k1) + b1 + (p + k2) + b2 + (p + k3) + b3 + (p + k4) + b4, p, k5, b5);
  }

  /** A piece `k + b` placed after the text `p` of an action: the action's
      text and the piece's head `k` read as one term. */
  lemma Piece(x: string, p: string, k: string, b: string)
    ensures x + p + (k + b) == x + (p + k) + b
  {
    Gq.Assoc(x + p, k, b);
    Gq.Assoc(x, p, k);
  }

  /** The same, for a piece `k + b + a`. */
  lemma PieceThen(x: string, p: string, k: string, b: string, a: string)
    ensures x + p + (k + b + a) == x + (p + k) + b + a
  {
    Gq.Assoc(x + p, k + b, a);
    Piece(x, p, k, b);
  }

  // ---------------------------------------------------------------------------
  // Decimal text of integers (strconv / fmt with the %v verb)

  predicate IsDigit(c: char)
  {
    '0' <= c <= '9'
  }

  function DigitChar(d: int): (c: char)
    requires 0 <= d < 10
  {
    (48 + d) as char
  }

  function NatDecimal(n: nat): string
  {
    if n < 10 then [DigitChar(n)] else NatDecimal(n / 10) + [DigitChar(n % 10)]
  }

  /** The decimal text of an integer, with a leading '-' when negative. */
  function Decimal(n: int): string
  {
    if n < 0 then "-" + NatDecimal(-n) else NatDecimal(n)
  }

  /** Only digits; at least two of them from ten upwards. */
  lemma {:induction false} NatDecimalDigits(n: nat)
    ensures |NatDecimal(n)| >= 1
    ensures n >= 10 ==> |NatDecimal(n)| >= 2
    ensures forall i :: 0 <= i < |NatDecimal(n)| ==> IsDigit(NatDecimal(n)[i])
  {
    if n >= 10 {
      NatDecimalDigits(n / 10);
    }
  }

  lemma {:induction false} NatDecimalInjective(a: nat, b: nat)
    requires NatDecimal(a) == NatDecimal(b)
    ensures a == b
  {
    NatDecimalDigits(a);
    NatDecimalDigits(b);
    var s := NatDecimal(a);
    if a >= 10 && b >= 10 {
      assert NatDecimal(a / 10) == s[..|s| - 1] == NatDecimal(b / 10);
      NatDecimalInjective(a / 10, b / 10);
      assert DigitChar(a % 10) == s[|s| - 1] == DigitChar(b % 10);
    }
  }

  /** A decimal text is non-empty, ends in a digit, and holds nothing but digits
      and, in front only, a minus sign; in particular no ' ', ',', '[' or ']'. */
  lemma DecimalShape(n: int)
    ensures |Decimal(n)| >= 1
    ensures IsDigit(Decimal(n)[|Decimal(n)| - 1])
    ensures IsDigit(Decimal(n)[0]) || Decimal(n)[0] == '-'
    ensures forall i :: 0 <= i < |Decimal(n)| ==> IsDigit(Decimal(n)[i]) || (i == 0 && Decimal(n)[i] == '-')
  {
    if n < 0 {
      NatDecimalDigits(-n);
    } else {
      NatDecimalDigits(n);
    }
  }

  /** Different integers print differently. */
  lemma DecimalInjective(a: int, b: int)
    requires Decimal(a) == Decimal(b)
    ensures a == b
  {
    DecimalShape(a);
    DecimalShape(b);
    NatDecimalDigits(if a < 0 then -a else a);
    NatDecimalDigits(if b < 0 then -b else b);
    if a < 0 && b < 0 {
      assert NatDecimal(-a) == Decimal(a)[1..] == NatDecimal(-b);
      NatDecimalInjective(-a, -b);
    } else if a >= 0 && b >= 0 {
      NatDecimalInjective(a, b);
    }
  }

  function Decimals(ids: seq<int>): (ds: seq<string>)
    ensures |ds| == |ids|
  {
    seq(|ids|, i requires 0 <= i < |ids| => Decimal(ids[i]))
  }

  /** fmt.Sprint of an []int64: "[1 2 3]". */
  function Sprint(ids: seq<int>): string
  {
    "[" + Join(Decimals(ids), " ") + "]"
  }

  // ---------------------------------------------------------------------------
  // strings.Replace with n = -1, and strings.Trim

  /** Every non-overlapping occurrence of `pat`, scanning left to right, is
      replaced by `rep`. */
  function ReplaceAll(s: string, pat: string, rep: string): string
    requires |pat| > 0
    decreases |s|
  {
    if |s| < |pat| then s
    else if s[..|pat|] == pat then rep + ReplaceAll(s[|pat|..], pat, rep)
    else [s[0]] + ReplaceAll(s[1..], pat, rep)
  }

  function TrimLeft(s: string, cutset: string): string
    decreases |s|
  {
    if s != [] && s[0] in cutset then TrimLeft(s[1..], cutset) else s
  }

  function TrimRight(s: string, cutset: string): string
    decreases |s|
  {
    if s != [] && s[|s| - 1] in cutset then TrimRight(s[..|s| - 1], cutset) else s
  }

  /** Drops every leading and trailing character that is in `cutset`. */
  function Trim(s: string, cutset: string): string
  {
    TrimRight(TrimLeft(s, cutset), cutset)
  }

  /** A text without the (one-character) pattern is left as it is. */
  lemma {:induction false} ReplaceAllAbsent(s: string, pat: string, rep: string)
    requires |pat| == 1 && pat[0] !in s
    ensures ReplaceAll(s, pat, rep) == s
    decreases |s|
  {
    if |s| >= 1 {
      assert s[..1] != pat by { assert s[..1][0] == s[0]; }
      ReplaceAllAbsent(s[1..], pat, rep);
      assert [s[0]] + s[1..] == s;
    }
  }

  /** A one-character pattern is replaced piece by piece. */
  lemma {:induction false} ReplaceAllAppend(a: string, b: string, pat: string, rep: string)
    requires |pat| == 1
    ensures ReplaceAll(a + b, pat, rep) == ReplaceAll(a, pat, rep) + ReplaceAll(b, pat, rep)
    decreases |a|
  {
    if a == [] {
      assert a + b == b;
    } else {
      assert (a + b)[..1] == a[..1];
      assert (a + b)[1..] == a[1..] + b;
      ReplaceAllAppend(a[1..], b, pat, rep);
    }
  }

  /** Replacing the separator of a join, where no part holds it, re-joins the
      same parts with the rep separator. */
  lemma {:induction false} ReplaceSeparator(parts: seq<string>, pat: string, rep: string)
    requires |pat| == 1
    requires forall i :: 0 <= i < |parts| ==> pat[0] !in parts[i]
    ensures ReplaceAll(Join(parts, pat), pat, rep) == Join(parts, rep)
    decreases |parts|
  {
    if |parts| == 1 {
      ReplaceAllAbsent(parts[0], pat, rep);
    } else if |parts| > 1 {
      ReplaceAllAppend(parts[0] + pat, Join(parts[1..], pat), pat, rep);
      ReplaceAllAppend(parts[0], pat, pat, rep);
      ReplaceAllAbsent(parts[0], pat, rep);
      assert ReplaceAll(pat, pat, rep) == rep by {
        assert pat[..|pat|] == pat;
        assert ReplaceAll(pat[|pat|..], pat, rep) == [];
      }
      ReplaceSeparator(parts[1..], pat, rep);
    }
  }

  /** The first character of a join is the first character of its first part,
      the last that of its last part, when those parts are not empty. */
  lemma {:induction false} JoinEnds(parts: seq<string>, sep: string)
    requires |parts| > 0
    requires forall i :: 0 <= i < |parts| ==> |parts[i]| > 0
    ensures |Join(parts, sep)| > 0
    ensures Join(parts, sep)[0] == parts[0][0]
    ensures Join(parts, sep)[|Join(parts, sep)| - 1] == parts[|parts| - 1][|parts[|parts| - 1]| - 1]
    decreases |parts|
  {
    if |parts| > 1 {
      JoinEnds(parts[1..], sep);
    }
  }

  /** The SQLite backend's id-list text, as the code computes it:
      strings.Trim(strings.Replace(fmt.Sprint(ids), " ", ",", -1), "[]"). */
  function IdList(ids: seq<int>): string
  {
    Trim(ReplaceAll(Sprint(ids), " ", ","), "[]")
  }

  /** Replacing the spaces of fmt.Sprint's output by commas leaves the
      brackets and comma-joins the decimal ids. */
  lemma SprintCommas(ids: seq<int>)
    ensures ReplaceAll(Sprint(ids), " ", ",") == "[" + Join(Decimals(ids), ",") + "]"
  {
    var ds := Decimals(ids);
    forall i | 0 <= i < |ds| ensures ' ' !in ds[i] {
      DecimalShape(ids[i]);
    }
    ReplaceSeparator(ds, " ", ",");
    ReplaceAllAppend("[" + Join(ds, " "), "]", " ", ",");
    ReplaceAllAppend("[", Join(ds, " "), " ", ",");
    ReplaceAllAbsent("[", " ", ",");
    ReplaceAllAbsent("]", " ", ",");
  }

  /** Trimming brackets off a bracketed text whose ends are not brackets gives
      back that text. */
  lemma TrimBrackets(k: string)
    requires k != [] ==> k[0] !in "[]" && k[|k| - 1] !in "[]"
    ensures Trim("[" + k + "]", "[]") == k
  {
    if k == [] {
      assert "[" + k + "]" == "[]";
      assert TrimLeft("[]", "[]") == TrimLeft("]", "[]") == TrimLeft("", "[]");
    } else {
      assert ("[" + k + "]")[1..] == k + "]";
      assert TrimLeft("[" + k + "]", "[]") == k + "]";
      assert (k + "]")[..|k|] == k;
      assert TrimRight(k + "]", "[]") == TrimRight(k, "[]");
    }
  }

  /** The id list is the decimal ids joined by single commas; no ids give "". */
  lemma IdListIsCommaJoin(ids: seq<int>)
    ensures IdList(ids) == Join(Decimals(ids), ",")
  {
    SprintCommas(ids);
    CommaJoinEnds(ids);
    TrimBrackets(Join(Decimals(ids), ","));
  }

  /** The comma-joined ids neither start nor end with a bracket. */
  lemma CommaJoinEnds(ids: seq<int>)
    ensures var k := Join(Decimals(ids), ","); k != [] ==> k[0] !in "[]" && k[|k| - 1] !in "[]"
  {
    var ds := Decimals(ids);
    if ids != [] {
      forall i | 0 <= i < |ds| ensures |ds[i]| > 0 {
        DecimalShape(ids[i]);
      }
      DecimalShape(ids[0]);
      DecimalShape(ids[|ids| - 1]);
      JoinEnds(ds, ",");
    } else {
      assert Join(ds, ",") == [];
    }
  }

  /** Under the rule that a bound text parameter matches a row when it is that
      row's id in decimal, an id list matches id `x` exactly when the list is
      the single id `x`: the empty list and any list of two or more ids match
      no row at all. */
  lemma IdListMatches(ids: seq<int>, x: int)
    ensures Decimal(x) == IdList(ids) <==> |ids| == 1 && ids[0] == x
  {
    IdListIsCommaJoin(ids);
    var ds := Decimals(ids);
    DecimalShape(x);
    if |ids| == 1 {
      assert Join(ds, ",") == Decimal(ids[0]);
      if Decimal(x) == IdList(ids) {
        DecimalInjective(x, ids[0]);
      }
    } else if |ids| >= 2 {
      DecimalShape(ids[0]);
      var j := Join(ds, ",");
      assert j == ds[0] + "," + Join(ds[1..], ",");
      assert j[|ds[0]|] == ',';
    }
  }
}
