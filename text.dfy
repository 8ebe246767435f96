/**
 * The few pieces of Go's `strings` and `fmt` packages that the monitor's
 * core relies on: `strings.Split` with a one-character separator,
 * `strings.Join`, `strings.TrimSpace`, and the `%d` / `"%s:%d"` formats
 * used to build status-map keys and dial addresses.
 */
module Text {

  /** Go's `unicode.IsSpace`: the Latin-1 spaces plus the other Unicode White_Space characters. */
  predicate IsSpace(c: char) {
    c == ' ' || c == '\t' || c == '\n' || c == '\U{000B}' || c == '\U{000C}' || c == '\r'
    || c == '\U{0085}' || c == '\U{00A0}' || c == '\U{1680}'
    || ('\U{2000}' <= c <= '\U{200A}')
    || c == '\U{2028}' || c == '\U{2029}' || c == '\U{202F}' || c == '\U{205F}' || c == '\U{3000}'
  }

  /** Every character of `s` is white space. */
  predicate AllSpace(s: string) {
    |s| == 0 || (IsSpace(s[0]) && AllSpace(s[1..]))
  }

  /** White space on both sides of a join is white space. */
  lemma {:induction false} AllSpaceAppend(a: string, b: string)
    requires AllSpace(a) && AllSpace(b)
    ensures AllSpace(a + b)
  {
    if |a| > 0 {
      assert (a + b)[1..] == a[1..] + b;
      AllSpaceAppend(a[1..], b);
    } else {
      assert a + b == b;
    }
  }

  /** Both sides of a cut through white space are white space. */
  lemma {:induction false} AllSpaceSplit(s: string, k: nat)
    requires AllSpace(s) && k <= |s|
    ensures AllSpace(s[..k]) && AllSpace(s[k..])
  {
    if k == 0 {
      assert s[k..] == s;
    } else {
      AllSpaceSplit(s[1..], k - 1);
      assert s[..k][1..] == s[1..][..k - 1];
      assert s[1..][k - 1..] == s[k..];
    }
  }

  /** A leading space in front of what trimming the rest leaves is dropped with the rest. */
  lemma TrimLeftStep(s: string, r: string)
    requires |s| > 0 && IsSpace(s[0])
    requires |r| <= |s| - 1 && r == s[1..][|s| - 1 - |r|..] && AllSpace(s[1..][..|s| - 1 - |r|])
    ensures r == s[|s| - |r|..] && AllSpace(s[..|s| - |r|])
  {
    assert s[1..][|s| - 1 - |r|..] == s[|s| - |r|..];
    assert s[..|s| - |r|] == [s[0]] + s[1..][..|s| - 1 - |r|];
    AllSpaceAppend([s[0]], s[1..][..|s| - 1 - |r|]);
  }

  /** A trailing space behind what trimming the rest leaves is dropped with the rest. */
  lemma TrimRightStep(s: string, r: string)
    requires |s| > 0 && IsSpace(s[|s| - 1])
    requires |r| <= |s| - 1 && r == s[..|s| - 1][..|r|] && AllSpace(s[..|s| - 1][|r|..])
    ensures r == s[..|r|] && AllSpace(s[|r|..])
  {
    assert s[..|s| - 1][..|r|] == s[..|r|];
    assert s[|r|..] == s[..|s| - 1][|r|..] + [s[|s| - 1]];
    AllSpaceAppend(s[..|s| - 1][|r|..], [s[|s| - 1]]);
  }

  /** Drops leading white space. */
  function TrimLeft(s: string): string {
    if |s| > 0 && IsSpace(s[0]) then TrimLeft(s[1..]) else s
  }

  /** Drops trailing white space. */
  function TrimRight(s: string): string {
    if |s| > 0 && IsSpace(s[|s| - 1]) then TrimRight(s[..|s| - 1]) else s
  }

  /** What `TrimLeft` keeps is a suffix of `s`, preceded only by spaces and not starting with one. */
  lemma {:induction false} TrimLeftShape(s: string)
    ensures var r := TrimLeft(s);
            |r| <= |s| && r == s[|s| - |r|..] && AllSpace(s[..|s| - |r|]) && (r == [] || !IsSpace(r[0]))
  {
    if |s| > 0 && IsSpace(s[0]) {
      TrimLeftShape(s[1..]);
      TrimLeftStep(s, TrimLeft(s[1..]));
    } else {
      assert s[..0] == [];
    }
  }

  /** What `TrimRight` keeps is a prefix of `s`, followed only by spaces and not ending with one. */
  lemma {:induction false} TrimRightShape(s: string)
    ensures var r := TrimRight(s);
            |r| <= |s| && r == s[..|r|] && AllSpace(s[|r|..]) && (r == [] || !IsSpace(r[|r| - 1]))
  {
    if |s| > 0 && IsSpace(s[|s| - 1]) {
      TrimRightShape(s[..|s| - 1]);
      TrimRightStep(s, TrimRight(s[..|s| - 1]));
    } else {
      assert s[|s|..] == [];
    }
  }

  /**
   * `strings.TrimSpace`: the longest infix of `s` that neither starts nor ends
   * with white space, everything around it being white space.
   */
  function TrimSpace(s: string): (r: string)
    ensures r == [] || (!IsSpace(r[0]) && !IsSpace(r[|r| - 1]))
  {
    var l := TrimLeft(s);
    TrimLeftShape(s);
    TrimRightShape(l);
    TrimRight(l)
  }

  /** The number of white-space characters `s` starts with. */
  function LeadingSpace(s: string): nat {
    if |s| > 0 && IsSpace(s[0]) then 1 + LeadingSpace(s[1..]) else 0
  }

  /** `TrimLeft` drops exactly the leading white space. */
  lemma {:induction false} TrimLeftDropsLeading(s: string)
    ensures |s| - |TrimLeft(s)| == LeadingSpace(s)
  {
    if |s| > 0 && IsSpace(s[0]) {
      TrimLeftDropsLeading(s[1..]);
    }
  }

  /**
   * What trimming keeps is the infix of `s` that starts right after the
   * leading white space, with only white space after it.
   */
  lemma TrimSpaceInfix(s: string)
    ensures var r, i := TrimSpace(s), LeadingSpace(s);
            i + |r| <= |s| && s[i..i + |r|] == r && AllSpace(s[..i]) && AllSpace(s[i + |r|..])
  {
    var l := TrimLeft(s);
    var r, i := TrimRight(l), LeadingSpace(s);
    assert TrimSpace(s) == r;
    assert i + |r| <= |s| && s[i..i + |r|] == r && AllSpace(s[..i]) && AllSpace(s[i + |r|..]) by {
      TrimLeftShape(s);
      TrimRightShape(l);
      TrimLeftDropsLeading(s);
      TrimSpaceAt(s, l, r, i);
    }
  }

  /** Where the trimmed text sits: right after the leading white space that `TrimLeft` drops. */
  lemma TrimSpaceAt(s: string, l: string, r: string, i: nat)
    requires |l| <= |s| && l == s[|s| - |l|..] && AllSpace(s[..|s| - |l|])
    requires |r| <= |l| && r == l[..|r|] && AllSpace(l[|r|..])
    requires i == |s| - |l|
    ensures i <= |s| - |r| && s[i..i + |r|] == r && AllSpace(s[..i]) && AllSpace(s[i + |r|..])
  {
    assert s[i..i + |r|] == l[..|r|];
    assert s[i + |r|..] == l[|r|..];
  }

  /** Trimming a string that has no white space at either end leaves it as it is. */
  lemma TrimSpaceKeepsTrimmed(s: string)
    requires s == [] || (!IsSpace(s[0]) && !IsSpace(s[|s| - 1]))
    ensures TrimSpace(s) == s
  {
  }

  lemma {:induction false} TrimLeftPadded(lead: string, x: string)
    requires AllSpace(lead) && (x == [] || !IsSpace(x[0]))
    ensures TrimLeft(lead + x) == x
  {
    if |lead| > 0 {
      assert (lead + x)[1..] == lead[1..] + x;
      TrimLeftPadded(lead[1..], x);
    }
  }

  lemma {:induction false} TrimRightPadded(x: string, trail: string)
    requires AllSpace(trail) && (x == [] || !IsSpace(x[|x| - 1]))
    ensures TrimRight(x + trail) == x
  {
    if |trail| > 0 {
      var n := |trail|;
      var init := trail[..n - 1];
      assert AllSpace(init) && IsSpace(trail[n - 1]) by {
        AllSpaceSplit(trail, n - 1);
        assert trail[n - 1..] == [trail[n - 1]];
      }
      assert (x + trail)[|x + trail| - 1] == trail[n - 1];
      assert (x + trail)[..|x + trail| - 1] == x + init;
      TrimRightPadded(x, init);
    }
  }

  /** A string of white space trims to nothing. */
  lemma TrimAllSpace(s: string)
    requires AllSpace(s)
    ensures TrimSpace(s) == []
  {
    TrimLeftPadded(s, []);
    assert s + [] == s;
  }

  /**
   * The characterisation of `TrimSpace`: whatever white space surrounds a
   * string that neither starts nor ends with white space, trimming removes
   * exactly that.
   */
  lemma TrimSpacePadded(lead: string, r: string, trail: string)
    requires AllSpace(lead) && AllSpace(trail)
    requires r == [] || (!IsSpace(r[0]) && !IsSpace(r[|r| - 1]))
    ensures TrimSpace(lead + r + trail) == r
  {
    var s := lead + r + trail;
    if r == [] {
      assert s == lead + trail;
      AllSpaceAppend(lead, trail);
      TrimAllSpace(s);
    } else {
      assert TrimLeft(s) == r + trail by {
        assert s == lead + (r + trail);
        TrimLeftPadded(lead, r + trail);
      }
      assert TrimRight(r + trail) == r by {
        TrimRightPadded(r, trail);
      }
    }
  }

  /** Trimming twice is trimming once. */
  lemma TrimSpaceIdempotent(s: string)
    ensures TrimSpace(TrimSpace(s)) == TrimSpace(s)
  {
    TrimSpaceKeepsTrimmed(TrimSpace(s));
  }

  /** Number of occurrences of `c` in `s`. */
  function Count(s: string, c: char): nat {
    if |s| == 0 then 0 else (if s[0] == c then 1 else 0) + Count(s[1..], c)
  }

  /**
   * `strings.Split(s, string(c))`: the pieces between the occurrences of `c`.
   * The empty string splits into one empty piece, as in Go.
   */
  function Split(s: string, c: char): (r: seq<string>)
    ensures |r| == Count(s, c) + 1
    ensures forall i :: 0 <= i < |r| ==> c !in r[i]
  {
    if |s| == 0 then [""]
    else
      var rest := Split(s[1..], c);
      if s[0] == c then [""] + rest
      else
        assert forall i :: 1 <= i < |rest| ==> ([[s[0]] + rest[0]] + rest[1..])[i] == rest[i];
        [[s[0]] + rest[0]] + rest[1..]
  }

  /** `strings.Join(parts, sep)`. */
  function Join(parts: seq<string>, sep: string): string {
    if |parts| == 0 then ""
    else if |parts| == 1 then parts[0]
    else parts[0] + sep + Join(parts[1..], sep)
  }

  /** Where part `i` starts in `Join(parts, sep)`: after each earlier part and its separator. */
  function JoinOffset(parts: seq<string>, sep: string, i: nat): nat
    requires i <= |parts|
  {
    if i == 0 then 0 else |parts[0]| + |sep| + JoinOffset(parts[1..], sep, i - 1)
  }

  /**
   * The joined text holds every part at its offset, and a separator right
   * after every part but the last.
   */
  lemma {:induction false} JoinAt(parts: seq<string>, sep: string, i: nat)
    requires i < |parts|
    ensures JoinOffset(parts, sep, i) + |parts[i]| <= |Join(parts, sep)|
    ensures Join(parts, sep)[JoinOffset(parts, sep, i)..JoinOffset(parts, sep, i) + |parts[i]|] == parts[i]
    ensures i < |parts| - 1 ==>
              JoinOffset(parts, sep, i) + |parts[i]| + |sep| <= |Join(parts, sep)|
              && Join(parts, sep)[JoinOffset(parts, sep, i) + |parts[i]|..JoinOffset(parts, sep, i) + |parts[i]| + |sep|] == sep
  {
    var j := Join(parts, sep);
    if |parts| > 1 {
      assert j == parts[0] + sep + Join(parts[1..], sep);
      if i > 0 {
        JoinAt(parts[1..], sep, i - 1);
        var k := |parts[0]| + |sep|;
        assert j[k..] == Join(parts[1..], sep);
      }
    }
  }

  /** A slice of `j` is the same slice of `h + j`, shifted by `|h|`. */
  lemma SliceAfterPrefix(h: string, j: string, a: nat, b: nat, piece: string)
    requires a <= b <= |j| && j[a..b] == piece
    ensures |h| + b <= |h + j| && (h + j)[|h| + a..|h| + b] == piece
  {
    assert (h + j)[|h| + a..|h| + b] == j[a..b];
  }

  /** `JoinAt` behind a prefix: each part sits at its offset shifted by the prefix's length. */
  lemma JoinPartAfterPrefix(h: string, parts: seq<string>, sep: string, i: nat)
    requires i < |parts|
    ensures var o, m := |h| + JoinOffset(parts, sep, i), h + Join(parts, sep);
            o + |parts[i]| <= |m| && m[o..o + |parts[i]|] == parts[i]
  {
    var x := JoinOffset(parts, sep, i);
    JoinAt(parts, sep, i);
    SliceAfterPrefix(h, Join(parts, sep), x, x + |parts[i]|, parts[i]);
  }

  /** `JoinAt` behind a prefix: the separator follows every part but the last. */
  lemma JoinSepAfterPrefix(h: string, parts: seq<string>, sep: string, i: nat)
    requires i < |parts| - 1
    ensures var o, m := |h| + JoinOffset(parts, sep, i) + |parts[i]|, h + Join(parts, sep);
            o + |sep| <= |m| && m[o..o + |sep|] == sep
  {
    var x := JoinOffset(parts, sep, i) + |parts[i]|;
    JoinAt(parts, sep, i);
    SliceAfterPrefix(h, Join(parts, sep), x, x + |sep|, sep);
  }

  /** A slice holds no character its string does not hold. */
  lemma SliceKeepsOut(s: string, i: nat, j: nat, c: char)
    requires i <= j <= |s| && c !in s
    ensures c !in s[i..j]
  {
    forall k | 0 <= k < j - i ensures s[i..j][k] != c {
      assert s[i..j][k] == s[i + k];
    }
  }

  /** Trimming cannot introduce a character the string did not hold. */
  lemma TrimSpaceKeepsOut(s: string, c: char)
    requires c !in s
    ensures c !in TrimSpace(s)
  {
    var l := TrimLeft(s);
    var r := TrimRight(l);
    TrimLeftShape(s);
    TrimRightShape(l);
    SliceKeepsOut(s, |s| - |l|, |s|, c);
    SliceKeepsOut(l, 0, |r|, c);
  }

  /** Joining the pieces of a split with the separator gives back the original string. */
  lemma {:induction false} JoinSplit(s: string, c: char)
    ensures Join(Split(s, c), [c]) == s
  {
    if |s| > 0 {
      var rest := Split(s[1..], c);
      JoinSplit(s[1..], c);
      if s[0] == c {
        assert Split(s, c) == [""] + rest;
        assert ([""] + rest)[1..] == rest;
      } else {
        var parts := [[s[0]] + rest[0]] + rest[1..];
        assert Split(s, c) == parts;
        if |rest| == 1 {
          assert Join(parts, [c]) == [s[0]] + Join(rest, [c]);
        } else {
          assert parts[1..] == rest[1..];
          assert Join(parts, [c]) == [s[0]] + Join(rest, [c]);
        }
        assert s == [s[0]] + s[1..];
      }
    }
  }

  /** Splitting a join of separator-free pieces (at least one) gives the pieces back. */
  lemma {:induction false} SplitJoin(parts: seq<string>, c: char)
    requires |parts| >= 1
    requires forall i :: 0 <= i < |parts| ==> c !in parts[i]
    ensures Split(Join(parts, [c]), c) == parts
  {
    if |parts| == 1 {
      SplitNoSeparator(parts[0], c);
    } else {
      SplitJoin(parts[1..], c);
      SplitAfter(parts[0], c, Join(parts[1..], [c]));
    }
  }

  /** A string without the separator splits into itself alone. */
  lemma {:induction false} SplitNoSeparator(s: string, c: char)
    requires c !in s
    ensures Split(s, c) == [s]
  {
    if |s| > 0 {
      SplitNoSeparator(s[1..], c);
      assert [s[0]] + s[1..] == s;
    }
  }

  /** Splitting `w + [c] + t`, where `w` has no separator, yields `w` in front of the split of `t`. */
  lemma {:induction false} SplitAfter(w: string, c: char, t: string)
    requires c !in w
    ensures Split(w + [c] + t, c) == [w] + Split(t, c)
  {
    if |w| == 0 {
      assert w + [c] + t == [c] + t;
      assert ([c] + t)[1..] == t;
    } else {
      SplitAfter(w[1..], c, t);
      var s := w + [c] + t;
      assert s[0] == w[0];
      assert s[1..] == w[1..] + [c] + t;
      assert [w[0]] + w[1..] == w;
    }
  }

  // ---- Go's %d and "%s:%d" ----

  function DigitChar(d: nat): char
    requires d < 10
  {
    ('0' as int + d) as char
  }

  predicate IsDigit(c: char) {
    '0' as int <= c as int <= '9' as int
  }

  /** Decimal text of a natural number, without leading zeros. */
  function NatToDecimal(n: nat): (r: string)
    ensures |r| >= 1
    ensures forall i :: 0 <= i < |r| ==> IsDigit(r[i])
  {
    if n < 10 then [DigitChar(n)] else NatToDecimal(n / 10) + [DigitChar(n % 10)]
  }

  /** `fmt.Sprintf("%d", n)`: a minus sign for negative numbers, then the digits. */
  function IntToDecimal(n: int): (r: string)
    ensures |r| >= 1
    ensures forall i :: 0 <= i < |r| ==> IsDigit(r[i]) || r[i] == '-'
  {
    if n < 0 then "-" + NatToDecimal(-n) else NatToDecimal(n)
  }

  /** Value of a string of digits; the independent reading of `NatToDecimal`. */
  function DecimalValue(s: string): nat
    requires forall i :: 0 <= i < |s| ==> IsDigit(s[i])
  {
    if |s| == 0 then 0
    else
      assert IsDigit(s[|s| - 1]);
      DecimalValue(s[..|s| - 1]) * 10 + (s[|s| - 1] as int - '0' as int)
  }

  /** Value of the text `%d` produces: an optional minus sign, then digits. */
  function ParseInt(s: string): int
    requires |s| >= 1
    requires forall i :: 0 <= i < |s| ==> IsDigit(s[i]) || (i == 0 && s[i] == '-')
  {
    if s[0] == '-' then -(DecimalValue(s[1..]) as int) else DecimalValue(s)
  }

  lemma {:induction false} NatDecimalRoundTrip(n: nat)
    ensures DecimalValue(NatToDecimal(n)) == n
  {
    var s := NatToDecimal(n);
    if n < 10 {
      assert s == [DigitChar(n)];
      assert s[..0] == [];
    } else {
      NatDecimalRoundTrip(n / 10);
      assert s == NatToDecimal(n / 10) + [DigitChar(n % 10)];
      assert s[..|s| - 1] == NatToDecimal(n / 10);
      assert s[|s| - 1] as int - '0' as int == n % 10;
    }
  }

  /** Reading back the `%d` text of any integer gives that integer. */
  lemma IntDecimalRoundTrip(n: int)
    ensures ParseInt(IntToDecimal(n)) == n
  {
    var s := IntToDecimal(n);
    if n < 0 {
      var d := NatToDecimal(-n);
      assert s == "-" + d;
      assert s[0] == '-' && s[1..] == d;
      NatDecimalRoundTrip(-n);
    } else {
      assert IsDigit(s[0]);
      NatDecimalRoundTrip(n);
    }
  }

  /** `fmt.Sprintf("%s:%d", host, port)`. */
  function HostPort(host: string, port: int): (r: string)
    ensures |r| > |host| && r[..|host|] == host && r[|host|] == ':'
    ensures ':' !in r[|host| + 1..]
  {
    var d := IntToDecimal(port);
    var r := host + ":" + d;
    assert r[|host| + 1..] == d;
    r
  }

  /**
   * The `"%s:%d"` key identifies its host and port: the port's digits
   * contain no colon, so the last colon of the key separates the two.
   */
  lemma HostPortInjective(h1: string, p1: int, h2: string, p2: int)
    requires HostPort(h1, p1) == HostPort(h2, p2)
    ensures h1 == h2 && p1 == p2
  {
    var k := HostPort(h1, p1);
    if |h1| < |h2| {
      assert false;
    } else if |h2| < |h1| {
      assert false;
    } else {
      assert IntToDecimal(p1) == k[|h1| + 1..] == IntToDecimal(p2);
      IntDecimalRoundTrip(p1);
      IntDecimalRoundTrip(p2);
    }
  }
}
