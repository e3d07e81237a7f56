/** Character classes, decimal and hexadecimal numerals, and separator
    splitting over strings, as the address parsers use them. */
module Strings {

  predicate IsDigit(c: char) {
    '0' <= c <= '9'
  }

  predicate IsHexDigit(c: char) {
    IsDigit(c) || 'a' <= c <= 'f' || 'A' <= c <= 'F'
  }

  function DigitValue(c: char): (d: nat)
    requires IsDigit(c)
    ensures d < 10
  {
    c as int - '0' as int
  }

  function HexDigitValue(c: char): (d: nat)
    requires IsHexDigit(c)
    ensures d < 16
  {
    if IsDigit(c) then DigitValue(c)
    else if 'a' <= c <= 'f' then c as int - 'a' as int + 10
    else c as int - 'A' as int + 10
  }

  /** The decimal digit character for a value below ten. */
  function DigitChar(d: nat): (c: char)
    requires d < 10
    ensures IsDigit(c) && DigitValue(c) == d
  {
    ('0' as int + d) as char
  }

  /** The lower-case hexadecimal digit character for a value below sixteen. */
  function HexDigitChar(d: nat): (c: char)
    requires d < 16
    ensures IsHexDigit(c) && HexDigitValue(c) == d
  {
    if d < 10 then DigitChar(d) else ('a' as int + d - 10) as char
  }

  predicate AllDigits(s: string) {
    forall i :: 0 <= i < |s| ==> IsDigit(s[i])
  }

  predicate AllHexDigits(s: string) {
    forall i :: 0 <= i < |s| ==> IsHexDigit(s[i])
  }

  /** The value of a decimal numeral, read most significant digit first. */
  function DecimalValue(s: string): (r: nat)
    requires AllDigits(s)
  {
    if |s| == 0 then 0 else 10 * DecimalValue(s[..|s| - 1]) + DigitValue(s[|s| - 1])
  }

  /** The value of a hexadecimal numeral, read most significant digit first. */
  function HexValue(s: string): (r: nat)
    requires AllHexDigits(s)
  {
    if |s| == 0 then 0 else 16 * HexValue(s[..|s| - 1]) + HexDigitValue(s[|s| - 1])
  }

  /** Index of the first occurrence of `c` in `s`, or -1 when there is none. */
  function IndexOf(s: string, c: char): (r: int)
    ensures r < 0 <==> c !in s
    ensures r < 0 ==> r == -1
    ensures 0 <= r ==> r < |s| && s[r] == c && c !in s[..r]
  {
    if |s| == 0 then -1
    else if s[0] == c then 0
    else
      var k := IndexOf(s[1..], c);
      assert 0 <= k ==> s[..k + 1] == [s[0]] + s[1..][..k];
      if k < 0 then -1 else k + 1
  }

  /** Index of the last occurrence of `c` in `s`, or -1 when there is none. */
  function LastIndexOf(s: string, c: char): (r: int)
    ensures r < 0 <==> c !in s
    ensures r < 0 ==> r == -1
    ensures 0 <= r ==> r < |s| && s[r] == c && c !in s[r + 1..]
  {
    if |s| == 0 then -1
    else if s[|s| - 1] == c then |s| - 1
    else
      var init := s[..|s| - 1];
      var k := LastIndexOf(init, c);
      assert s == init + [s[|s| - 1]];
      assert 0 <= k ==> s[k + 1..] == init[k + 1..] + [s[|s| - 1]];
      if k < 0 then -1 else k
  }

  /** The first occurrence is the one with none before it. */
  lemma IndexOfAt(s: string, c: char, k: nat)
    requires k < |s| && s[k] == c && c !in s[..k]
    ensures IndexOf(s, c) == k
  {
  }

  /** Text joined at its first `c` splits back into the same two parts. */
  lemma FirstSplit(t: string, c: char, p: string)
    requires c !in t
    ensures IndexOf(t + [c] + p, c) == |t|
    ensures (t + [c] + p)[..|t|] == t && (t + [c] + p)[|t| + 1..] == p
  {
    var s := t + [c] + p;
    assert s[..|t|] == t && s[|t|] == c;
    IndexOfAt(s, c, |t|);
  }

  /** The last occurrence is the one with none after it. */
  lemma LastIndexOfAt(s: string, c: char, k: nat)
    requires k < |s| && s[k] == c && c !in s[k + 1..]
    ensures LastIndexOf(s, c) == k
  {
  }

  /** The fields of `s` between occurrences of `sep`, as Go's strings.Split
      returns them: one more field than there are separators. */
  function Split(s: string, sep: char): (r: seq<string>)
    ensures |r| >= 1
    ensures forall k :: 0 <= k < |r| ==> sep !in r[k]
  {
    if |s| == 0 then [""]
    else
      var rest := Split(s[1..], sep);
      if s[0] == sep then [""] + rest
      else [[s[0]] + rest[0]] + rest[1..]
  }

  /** The fields joined with `sep` between neighbours. */
  function Join(fields: seq<string>, sep: char): (r: string)
    requires |fields| >= 1
  {
    if |fields| == 1 then fields[0] else fields[0] + [sep] + Join(fields[1..], sep)
  }

  /** The last character of joined fields is that of the last field. */
  lemma {:induction false} JoinLast(fields: seq<string>, sep: char)
    requires |fields| >= 1 && |fields[|fields| - 1]| >= 1
    ensures |Join(fields, sep)| >= 1
    ensures Join(fields, sep)[|Join(fields, sep)| - 1] == fields[|fields| - 1][|fields[|fields| - 1]| - 1]
  {
    if |fields| > 1 {
      JoinLast(fields[1..], sep);
      assert fields[1..][|fields| - 2] == fields[|fields| - 1];
    }
  }

  lemma {:induction false} SplitWithoutSeparator(s: string, sep: char)
    requires sep !in s
    ensures Split(s, sep) == [s]
  {
    if |s| > 0 {
      SplitWithoutSeparator(s[1..], sep);
      assert [s[0]] + s[1..] == s;
    }
  }

  lemma {:induction false} SplitAfterField(f: string, sep: char, t: string)
    requires sep !in f
    ensures Split(f + [sep] + t, sep) == [f] + Split(t, sep)
  {
    if |f| == 0 {
      assert f + [sep] + t == [sep] + t;
      assert ([sep] + t)[1..] == t;
    } else {
      var s := f + [sep] + t;
      assert s[0] == f[0];
      assert s[1..] == f[1..] + [sep] + t;
      SplitAfterField(f[1..], sep, t);
      assert [f[0]] + f[1..] == f;
    }
  }

  /** Splitting undoes joining when no field holds the separator. */
  lemma {:induction false} SplitJoin(fields: seq<string>, sep: char)
    requires |fields| >= 1
    requires forall k :: 0 <= k < |fields| ==> sep !in fields[k]
    ensures Split(Join(fields, sep), sep) == fields
  {
    if |fields| == 1 {
      SplitWithoutSeparator(fields[0], sep);
    } else {
      SplitJoin(fields[1..], sep);
      SplitAfterField(fields[0], sep, Join(fields[1..], sep));
      assert [fields[0]] + fields[1..] == fields;
    }
  }

  /** Joining undoes splitting: no character of the text is lost. */
  lemma {:induction false} JoinSplit(s: string, sep: char)
    ensures Join(Split(s, sep), sep) == s
  {
    if |s| > 0 {
      JoinSplit(s[1..], sep);
      var rest := Split(s[1..], sep);
      if s[0] == sep {
        assert ([""] + rest)[1..] == rest;
        assert s == [sep] + s[1..];
      } else {
        var r := [[s[0]] + rest[0]] + rest[1..];
        if |rest| == 1 {
          assert s == [s[0]] + rest[0];
        } else {
          assert r[1..] == rest[1..];
          assert Join(rest, sep) == rest[0] + [sep] + Join(rest[1..], sep);
          assert s == [s[0]] + Join(rest, sep);
        }
      }
    }
  }

  /** Every character of a joined text is the separator or a character of
      some field, so a class that holds of both holds of the whole text. */
  lemma {:induction false} JoinKeepsClass(fields: seq<string>, sep: char, p: char -> bool)
    requires |fields| >= 1
    requires p(sep)
    requires forall k, i :: 0 <= k < |fields| && 0 <= i < |fields[k]| ==> p(fields[k][i])
    ensures forall i :: 0 <= i < |Join(fields, sep)| ==> p(Join(fields, sep)[i])
  {
    if |fields| > 1 {
      JoinKeepsClass(fields[1..], sep, p);
      assert forall k, i :: 0 <= k < |fields[1..]| && 0 <= i < |fields[1..][k]| ==> p(fields[1..][k][i]) by {
        forall k, i | 0 <= k < |fields[1..]| && 0 <= i < |fields[1..][k]|
          ensures p(fields[1..][k][i])
        {
          assert fields[1..][k] == fields[k + 1];
        }
      }
      var j := Join(fields, sep);
      assert j == fields[0] + [sep] + Join(fields[1..], sep);
      forall i | 0 <= i < |j| ensures p(j[i]) {
        if i < |fields[0]| {
          assert j[i] == fields[0][i];
        } else if i == |fields[0]| {
          assert j[i] == sep;
        } else {
          assert j[i] == Join(fields[1..], sep)[i - |fields[0]| - 1];
        }
      }
    }
  }
}
