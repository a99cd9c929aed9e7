/**
 * Byte counts: the unit table, the parser that turns "<integer>" or
 * "<integer> <unit>" into a number of bytes, and the IEC/SI magnitude of a
 * count (geobrs/byte_count.py).
 */
module ByteCounts {
  import opened Wrappers

  /** b raised to the power e, as Python's `b ** e` on non-negative integers. */
  function Pow(b: nat, e: nat): (r: nat)
    ensures b >= 1 ==> r >= 1
  {
    if e == 0 then 1 else b * Pow(b, e - 1)
  }

  // ---------------------------------------------------------------------------
  // The unit table
  // ---------------------------------------------------------------------------

  /**
   * The entries of the unit table, one inner sequence per line of the
   * dictionary display: "byte"/"bytes", then one line per IEC prefix
   * (abbreviation, name, plural), then one line per SI prefix (abbreviation,
   * name, single letter, plural).
   */
  const PrefixLines: seq<seq<(string, int)>> := [
    [("byte", 1), ("bytes", 1)],
    [("kib", Pow(1024, 1)), ("kibibyte", Pow(1024, 1)), ("kibibytes", Pow(1024, 1))],
    [("mib", Pow(1024, 2)), ("mebibyte", Pow(1024, 2)), ("mebibytes", Pow(1024, 2))],
    [("gib", Pow(1024, 3)), ("gibibyte", Pow(1024, 3)), ("gibibytes", Pow(1024, 3))],
    [("tib", Pow(1024, 4)), ("tebibyte", Pow(1024, 4)), ("tebibytes", Pow(1024, 4))],
    [("pib", Pow(1024, 5)), ("pebibyte", Pow(1024, 5)), ("pebibytes", Pow(1024, 5))],
    [("eib", Pow(1024, 6)), ("exbibyte", Pow(1024, 6)), ("exbibytes", Pow(1024, 6))],
    [("zib", Pow(1024, 7)), ("zebibyte", Pow(1024, 7)), ("zebibytes", Pow(1024, 7))],
    [("yib", Pow(1024, 8)), ("yobibyte", Pow(1024, 8)), ("yobibytes", Pow(1024, 8))],
    [("rib", Pow(1024, 9)), ("robibyte", Pow(1024, 9)), ("robibytes", Pow(1024, 9))],
    [("qib", Pow(1024, 10)), ("quebibyte", Pow(1024, 10)), ("quebibytes", Pow(1024, 10))],
    [("kb", Pow(1000, 1)), ("kilobyte", Pow(1000, 1)), ("k", Pow(1000, 1)), ("kilobytes", Pow(1000, 1))],
    [("mb", Pow(1000, 2)), ("megabyte", Pow(1000, 2)), ("m", Pow(1000, 2)), ("megabytes", Pow(1000, 2))],
    [("gb", Pow(1000, 3)), ("gigabyte", Pow(1000, 3)), ("g", Pow(1000, 3)), ("gigabytes", Pow(1000, 3))],
    [("tb", Pow(1000, 4)), ("terabyte", Pow(1000, 4)), ("t", Pow(1000, 4)), ("terabytes", Pow(1000, 4))],
    [("pb", Pow(1000, 5)), ("petabyte", Pow(1000, 5)), ("p", Pow(1000, 5)), ("petabytes", Pow(1000, 5))],
    [("eb", Pow(1000, 6)), ("exabyte", Pow(1000, 6)), ("e", Pow(1000, 6)), ("exabytes", Pow(1000, 6))],
    [("zb", Pow(1000, 7)), ("zettabyte", Pow(1000, 7)), ("z", Pow(1000, 7)), ("zettabytes", Pow(1000, 7))],
    [("yb", Pow(1000, 8)), ("yottabyte", Pow(1000, 8)), ("y", Pow(1000, 8)), ("yottabytes", Pow(1000, 8))],
    [("rb", Pow(1000, 9)), ("ronnabyte", Pow(1000, 9)), ("r", Pow(1000, 9)), ("ronnabytes", Pow(1000, 9))],
    [("qb", Pow(1000, 10)), ("quettabyte", Pow(1000, 10)), ("q", Pow(1000, 10)), ("quettabytes", Pow(1000, 10))]
  ]

  /** The lines of a display read one after the other. */
  function Flatten<A>(ls: seq<seq<A>>): seq<A>
  {
    if ls == [] then [] else Flatten(ls[..|ls| - 1]) + ls[|ls| - 1]
  }

  /** The dictionary a display builds: entries are stored left to right, so a later key wins. */
  function Dict(entries: seq<(string, int)>): map<string, int>
  {
    if entries == [] then map[]
    else
      var last := entries[|entries| - 1];
      Dict(entries[..|entries| - 1])[last.0 := last.1]
  }

  /** The unit table: lower-case unit name to the number of bytes it stands for. */
  const Prefixes: map<string, int> := Dict(Flatten(PrefixLines))

  /** The first letters of the prefixes, in increasing order of magnitude. */
  const Letters: string := "kmgtpezyrq"

  /** Each prefix letter to its exponent, as the comprehension over the enumeration of Letters builds it. */
  const FirstLetters: map<char, nat> :=
    map['k' := 1, 'm' := 2, 'g' := 3, 't' := 4, 'p' := 5, 'e' := 6, 'z' := 7, 'y' := 8, 'r' := 9, 'q' := 10]

  /** An IEC unit name: an abbreviation "<letter>ib", or a name ending in "bibyte" or "bibytes". */
  predicate IsBinaryName(u: string)
  {
    var n := if u != [] && u[|u| - 1] == 's' then |u| - 1 else |u|;
    (|u| == 3 && u[1] == 'i' && u[2] == 'b') || (n >= 6 && u[n - 6] == 'b' && u[n - 5] == 'i' && u[n - 4] == 'b')
  }

  /**
   * The naming scheme of the table: "byte" and "bytes" are one byte; any other
   * name starts with a prefix letter whose exponent k gives 1024^k for an IEC
   * name and 1000^k for an SI name or a bare letter.
   */
  predicate FollowsScheme(e: (string, int))
  {
    if e.0 == "byte" || e.0 == "bytes" then e.1 == 1
    else e.0 != [] && e.0[0] in FirstLetters && e.1 == Pow(if IsBinaryName(e.0) then 1024 else 1000, FirstLetters[e.0[0]])
  }

  lemma FirstLettersIndex()
    ensures forall i :: 0 <= i < |Letters| ==> Letters[i] in FirstLetters && FirstLetters[Letters[i]] == i + 1
    ensures forall c :: c in FirstLetters ==> c in Letters
  {
    forall i | 0 <= i < |Letters|
      ensures Letters[i] in FirstLetters && FirstLetters[Letters[i]] == i + 1
    {
      assert i in {0, 1, 2, 3, 4, 5, 6, 7, 8, 9};
    }
  }

  lemma {:induction false} FlattenSound<A>(ls: seq<seq<A>>, x: A)
    requires x in Flatten(ls)
    ensures exists l :: l in ls && x in l
  {
    if x !in ls[|ls| - 1] {
      FlattenSound(ls[..|ls| - 1], x);
      var l :| l in ls[..|ls| - 1] && x in l;
      assert l in ls;
    }
  }

  lemma {:induction false} FlattenComplete<A>(ls: seq<seq<A>>, l: seq<A>, x: A)
    requires l in ls && x in l
    ensures x in Flatten(ls)
  {
    if l != ls[|ls| - 1] {
      assert l in ls[..|ls| - 1];
      FlattenComplete(ls[..|ls| - 1], l, x);
    }
  }

  lemma {:induction false} DictSound(entries: seq<(string, int)>, u: string)
    requires u in Dict(entries)
    ensures (u, Dict(entries)[u]) in entries
  {
    var init := entries[..|entries| - 1];
    if u != entries[|entries| - 1].0 {
      DictSound(init, u);
      assert (u, Dict(init)[u]) in init;
    }
  }

  lemma {:induction false} DictComplete(entries: seq<(string, int)>, e: (string, int))
    requires e in entries
    ensures e.0 in Dict(entries)
  {
    if e != entries[|entries| - 1] {
      assert e in entries[..|entries| - 1];
      DictComplete(entries[..|entries| - 1], e);
    }
  }

  lemma BytesLinesFollowScheme()
    ensures forall i, e :: 0 <= i < 4 && e in PrefixLines[i] ==> FollowsScheme(e)
  {
  }

  lemma BinaryLinesFollowScheme()
    ensures forall i, e :: 4 <= i < 8 && e in PrefixLines[i] ==> FollowsScheme(e)
  {
  }

  lemma BinaryTailFollowsScheme()
    ensures forall i, e :: 8 <= i < 11 && e in PrefixLines[i] ==> FollowsScheme(e)
  {
  }

  lemma DecimalLinesFollowScheme()
    ensures forall i, e :: 11 <= i < 14 && e in PrefixLines[i] ==> FollowsScheme(e)
  {
  }

  lemma DecimalMiddleFollowsScheme()
    ensures forall i, e :: 14 <= i < 17 && e in PrefixLines[i] ==> FollowsScheme(e)
  {
  }

  lemma DecimalTailFollowsScheme()
    ensures forall i, e :: 17 <= i < 21 && e in PrefixLines[i] ==> FollowsScheme(e)
  {
  }

  /** Every unit in the table has the value its name prescribes. */
  lemma PrefixesFollowScheme(u: string)
    requires u in Prefixes
    ensures FollowsScheme((u, Prefixes[u]))
  {
    var e := (u, Prefixes[u]);
    DictSound(Flatten(PrefixLines), u);
    FlattenSound(PrefixLines, e);
    var l :| l in PrefixLines && e in l;
    var i :| 0 <= i < |PrefixLines| && PrefixLines[i] == l;
    BytesLinesFollowScheme();
    BinaryLinesFollowScheme();
    BinaryTailFollowsScheme();
    DecimalLinesFollowScheme();
    DecimalMiddleFollowsScheme();
    DecimalTailFollowsScheme();
  }

  /** Every name written in the table is a key of it, and its value follows the scheme. */
  lemma PrefixesListed(i: nat, e: (string, int))
    requires i < |PrefixLines| && e in PrefixLines[i]
    ensures e.0 in Prefixes && FollowsScheme((e.0, Prefixes[e.0]))
  {
    FlattenComplete(PrefixLines, PrefixLines[i], e);
    DictComplete(Flatten(PrefixLines), e);
    PrefixesFollowScheme(e.0);
  }

  // ---------------------------------------------------------------------------
  // Python's str.isspace, strip, lower and split
  // ---------------------------------------------------------------------------

  /** The characters for which Python's str.isspace holds. */
  predicate IsSpace(c: char)
  {
    var n := c as int;
    (9 <= n <= 13) || (28 <= n <= 32) || n == 0x85 || n == 0xA0 || n == 0x1680 ||
    (0x2000 <= n <= 0x200A) || n == 0x2028 || n == 0x2029 || n == 0x202F || n == 0x205F || n == 0x3000
  }

  predicate AllSpace(s: string)
  {
    forall i :: 0 <= i < |s| ==> IsSpace(s[i])
  }

  predicate NoSpace(s: string)
  {
    forall i :: 0 <= i < |s| ==> !IsSpace(s[i])
  }

  /** s without its leading whitespace. */
  function StripLeft(s: string): (r: string)
    ensures |r| <= |s| && r == s[|s| - |r|..]
    ensures AllSpace(s[..|s| - |r|])
    ensures r == [] || !IsSpace(r[0])
  {
    if s != [] && IsSpace(s[0]) then
      var t := s[1..];
      var r := StripLeft(t);
      assert AllSpace(s[..|s| - |r|]) by {
        var stripped := s[..|s| - |r|];
        forall i | 0 <= i < |stripped| ensures IsSpace(stripped[i]) {
          if i > 0 {
            assert stripped[i] == t[..|t| - |r|][i - 1];
          }
        }
      }
      r
    else s
  }

  /** s without its trailing whitespace. */
  function StripRight(s: string): (r: string)
    ensures |r| <= |s| && r == s[..|r|]
    ensures AllSpace(s[|r|..])
    ensures r == [] || !IsSpace(r[|r| - 1])
  {
    if s != [] && IsSpace(s[|s| - 1]) then
      var t := s[..|s| - 1];
      var r := StripRight(t);
      assert AllSpace(s[|r|..]) by {
        var stripped := s[|r|..];
        forall i | 0 <= i < |stripped| ensures IsSpace(stripped[i]) {
          if |r| + i < |t| {
            assert stripped[i] == t[|r|..][i];
          }
        }
      }
      r
    else s
  }

  /** Python's s.strip(). */
  function Strip(s: string): string
  {
    StripRight(StripLeft(s))
  }

  function LowerChar(c: char): char
  {
    if 'A' <= c <= 'Z' then (c as int - 'A' as int + 'a' as int) as char else c
  }

  /** Python's s.lower(), on the ASCII letters. */
  function Lower(s: string): (r: string)
    ensures |r| == |s|
  {
    seq(|s|, i requires 0 <= i < |s| => LowerChar(s[i]))
  }

  /** The longest prefix of s free of whitespace. */
  function Word(s: string): (w: string)
    ensures |w| <= |s| && w == s[..|w|] && NoSpace(w)
    ensures |w| < |s| ==> IsSpace(s[|w|])
  {
    if s == [] || IsSpace(s[0]) then [] else [s[0]] + Word(s[1..])
  }

  /** Python's s.split() with no separator: the maximal runs of non-whitespace, in order. */
  function Split(s: string): (r: seq<string>)
    ensures forall i :: 0 <= i < |r| ==> r[i] != [] && NoSpace(r[i])
    decreases |s|
  {
    var t := StripLeft(s);
    if t == [] then []
    else
      var w := Word(t);
      assert w != [] by {
        assert !IsSpace(t[0]);
      }
      [w] + Split(t[|w|..])
  }

  lemma {:induction false} StripLeftSpaces(w: string, t: string)
    requires AllSpace(w)
    ensures StripLeft(w + t) == StripLeft(t)
    decreases |w|
  {
    if w == [] {
      assert w + t == t;
    } else {
      assert (w + t)[0] == w[0];
      assert (w + t)[1..] == w[1..] + t;
      StripLeftSpaces(w[1..], t);
    }
  }

  lemma {:induction false} StripRightSpaces(t: string, w: string)
    requires AllSpace(w)
    ensures StripRight(t + w) == StripRight(t)
    decreases |w|
  {
    if w == [] {
      assert t + w == t;
    } else {
      assert (t + w)[|t + w| - 1] == w[|w| - 1];
      assert (t + w)[..|t + w| - 1] == t + w[..|w| - 1];
      StripRightSpaces(t, w[..|w| - 1]);
    }
  }

  /** Stripping removes exactly the whitespace around a core that starts and ends with a non-space. */
  lemma StripPadded(w1: string, core: string, w2: string)
    requires AllSpace(w1) && AllSpace(w2)
    requires core != [] && !IsSpace(core[0]) && !IsSpace(core[|core| - 1])
    ensures Strip(w1 + core + w2) == core
  {
    AppendAssoc(w1, core, w2);
    StripLeftSpaces(w1, core + w2);
    StripRightSpaces(core, w2);
  }

  /** Stripping leaves a string that neither starts nor ends with whitespace as it is. */
  lemma StripClean(s: string)
    requires s != [] && !IsSpace(s[0]) && !IsSpace(s[|s| - 1])
    ensures Strip(s) == s
  {
    assert StripLeft(s) == s;
  }

  lemma LowerAppend(a: string, b: string)
    ensures Lower(a + b) == Lower(a) + Lower(b)
  {
  }

  /** Lower-casing leaves whitespace, digits and signs alone. */
  lemma LowerUnchanged(s: string)
    requires forall i :: 0 <= i < |s| ==> !('A' <= s[i] <= 'Z')
    ensures Lower(s) == s
  {
  }

  /** Lower-casing neither creates nor removes whitespace. */
  lemma LowerNoSpace(s: string)
    requires s != [] && NoSpace(s)
    ensures Lower(s) != [] && NoSpace(Lower(s))
  {
  }

  lemma {:induction false} WordOf(a: string, rest: string)
    requires NoSpace(a) && (rest == [] || IsSpace(rest[0]))
    ensures Word(a + rest) == a
    decreases |a|
  {
    if a != [] {
      assert (a + rest)[1..] == a[1..] + rest;
      WordOf(a[1..], rest);
    }
  }

  /** Leading whitespace does not change the split. */
  lemma SplitSpaces(w: string, t: string)
    requires AllSpace(w)
    ensures Split(w + t) == Split(t)
  {
    StripLeftSpaces(w, t);
  }

  /** A single run of non-whitespace splits into itself. */
  lemma SplitOne(a: string)
    requires a != [] && NoSpace(a)
    ensures Split(a) == [a]
  {
    WordOf(a, []);
    assert a + [] == a;
  }

  /** A leading run of non-whitespace, ended by whitespace or the end, is the first token. */
  lemma SplitCons(a: string, rest: string)
    requires a != [] && NoSpace(a) && (rest == [] || IsSpace(rest[0]))
    ensures Split(a + rest) == [a] + Split(rest)
  {
    var s := a + rest;
    assert StripLeft(s) == s by {
      assert s[0] == a[0];
    }
    WordOf(a, rest);
    assert s[|a|..] == rest;
  }

  /** A run of non-whitespace followed by whitespace is the first token. */
  lemma SplitWordSpace(a: string, w: string, b: string)
    requires a != [] && NoSpace(a) && w != [] && AllSpace(w)
    ensures Split(a + w + b) == [a] + Split(w + b)
  {
    assert (w + b)[0] == w[0];
    AppendAssoc(a, w, b);
    SplitCons(a, w + b);
  }

  /** Concatenation of strings is associative. */
  lemma AppendAssoc(a: string, w: string, b: string)
    ensures a + w + b == a + (w + b)
  {
  }

  /** Two runs separated by whitespace split into the two of them. */
  lemma SplitTwo(a: string, w: string, b: string)
    requires a != [] && NoSpace(a) && b != [] && NoSpace(b)
    requires w != [] && AllSpace(w)
    ensures Split(a + w + b) == [a, b]
  {
    SplitWordSpace(a, w, b);
    SplitSpaces(w, b);
    SplitOne(b);
  }

  /** Trailing whitespace does not change the split. */
  lemma {:induction false} SplitTrailing(t: string, w: string)
    requires AllSpace(w)
    ensures Split(t + w) == Split(t)
    decreases |t|
  {
    var l := StripLeft(t);
    SplitLeading(t, w);
    if l == [] {
      SplitBlank(w);
    } else {
      var rest := l[|Word(l)|..];
      SplitFirstWord(l, w);
      SplitTrailing(rest, w);
    }
  }

  /** Splitting t, with or without a tail, starts where the whitespace in front of t ends. */
  lemma SplitLeading(t: string, w: string)
    ensures Split(t + w) == Split(StripLeft(t) + w)
    ensures Split(t) == Split(StripLeft(t))
  {
    var l := StripLeft(t);
    var p := t[..|t| - |l|];
    Rejoin(t, |t| - |l|);
    AppendAssoc(p, l, w);
    SplitSpaces(p, l + w);
    SplitSpaces(p, l);
  }

  /** A blank string has no tokens. */
  lemma SplitBlank(w: string)
    requires AllSpace(w)
    ensures Split(w) == [] && Split([] + w) == []
  {
    assert [] + w == w;
    assert StripLeft(w) == [];
  }

  /** The first token of l stays the first token when a tail of whitespace is appended. */
  lemma SplitFirstWord(l: string, w: string)
    requires l != [] && !IsSpace(l[0]) && AllSpace(w)
    ensures var rest := l[|Word(l)|..];
      |rest| < |l| && Split(l) == [Word(l)] + Split(rest) && Split(l + w) == [Word(l)] + Split(rest + w)
  {
    var a := Word(l);
    var rest := l[|a|..];
    assert a != [] by {
      assert a[0] == l[0];
    }
    Rejoin(l, |a|);
    SplitCons(a, rest);
    AppendAssoc(a, rest, w);
    assert rest + w == [] || IsSpace((rest + w)[0]) by {
      if rest != [] {
        assert (rest + w)[0] == rest[0];
      }
    }
    SplitCons(a, rest + w);
  }

  /** A sequence is its prefix followed by its suffix. */
  lemma Rejoin<A>(x: seq<A>, n: nat)
    requires n <= |x|
    ensures x[..n] + x[n..] == x
  {
  }

  /** Stripping does not change the split. */
  lemma SplitStrip(s: string)
    ensures Split(Strip(s)) == Split(s)
  {
    var l := StripLeft(s);
    Rejoin(s, |s| - |l|);
    SplitSpaces(s[..|s| - |l|], l);
    var r := StripRight(l);
    Rejoin(l, |r|);
    SplitTrailing(r, l[|r|..]);
  }

  /** x and y have whitespace at the same positions. */
  predicate SameSpaces(x: string, y: string)
  {
    |x| == |y| && forall i :: 0 <= i < |x| ==> (IsSpace(x[i]) <==> IsSpace(y[i]))
  }

  lemma {:induction false} StripLeftSameSpaces(x: string, y: string)
    requires SameSpaces(x, y)
    ensures |StripLeft(x)| == |StripLeft(y)|
    decreases |x|
  {
    if x != [] && IsSpace(x[0]) {
      StripLeftSameSpaces(x[1..], y[1..]);
    }
  }

  lemma {:induction false} WordSameSpaces(x: string, y: string)
    requires SameSpaces(x, y)
    ensures |Word(x)| == |Word(y)|
    decreases |x|
  {
    if x != [] && !IsSpace(x[0]) {
      WordSameSpaces(x[1..], y[1..]);
    }
  }

  /** Strings with whitespace at the same positions split into as many tokens. */
  lemma {:induction false} SplitSameSpaces(x: string, y: string)
    requires SameSpaces(x, y)
    ensures |Split(x)| == |Split(y)|
    decreases |x|
  {
    var t := StripLeft(x);
    var u := StripLeft(y);
    StripLeftSameSpaces(x, y);
    SplitLeading(x, []);
    SplitLeading(y, []);
    if t != [] {
      SameSpacesSuffix(x, y, |x| - |t|);
      WordSameSpaces(t, u);
      var m := |Word(t)|;
      SameSpacesSuffix(t, u, m);
      SplitFirstWord(t, []);
      SplitFirstWord(u, []);
      SplitSameSpaces(t[m..], u[m..]);
    }
  }

  lemma SameSpacesSuffix(x: string, y: string, n: nat)
    requires SameSpaces(x, y) && n <= |x|
    ensures SameSpaces(x[n..], y[n..])
  {
    forall i | 0 <= i < |x| - n ensures IsSpace(x[n..][i]) <==> IsSpace(y[n..][i]) {
      assert x[n..][i] == x[n + i] && y[n..][i] == y[n + i];
    }
  }

  /** Lower-casing keeps whitespace where it is. */
  lemma LowerSameSpaces(s: string)
    ensures SameSpaces(Lower(s), s)
  {
  }

  // ---------------------------------------------------------------------------
  // Python's int() on a string, in base 10
  // ---------------------------------------------------------------------------

  predicate IsDigit(c: char)
  {
    '0' as int <= c as int <= '9' as int
  }

  predicate AllDigits(s: string)
  {
    forall i :: 0 <= i < |s| ==> IsDigit(s[i])
  }

  /** The value of a string of decimal digits, most significant first. */
  function DigitsValue(d: string): nat
    requires AllDigits(d)
  {
    if d == [] then 0 else DigitsValue(d[..|d| - 1]) * 10 + (d[|d| - 1] as int - '0' as int)
  }

  /**
   * The most decimal digits int() reads from a string, and str() writes, under
   * the default limit of Python 3.11 and later (sys.int_info.default_max_str_digits).
   * Leading zeros count as digits.
   */
  const MaxStrDigits: nat := 4300

  /** A non-empty run of decimal digits no longer than the limit, or nothing. */
  function ParseDigits(d: string): Option<nat>
  {
    if d != [] && AllDigits(d) && |d| <= MaxStrDigits then Some(DigitsValue(d)) else None
  }

  /** An optional sign followed by decimal digits, with nothing around them. */
  function ParseSigned(t: string): Option<int>
  {
    if t != [] && (t[0] == '+' || t[0] == '-') then
      match ParseDigits(t[1..])
      case None => None
      case Some(v) => Some(if t[0] == '-' then -(v as int) else v as int)
    else
      ParseDigits(t)
  }

  /** The whitespace int() skips around its digits: tab, line feed, vertical tab, form feed, carriage return and space. */
  predicate IsIntSpace(c: char)
  {
    var n := c as int;
    (9 <= n <= 13) || n == 32
  }

  /**
   * The whitespace int() skips in the end: its own six characters, and any
   * whitespace character beyond ASCII, which it first turns into a blank.
   * The four separator controls U+001C to U+001F are whitespace to split()
   * but not to int().
   */
  predicate IsIntSkipped(c: char)
  {
    IsIntSpace(c) || (IsSpace(c) && c as int >= 127)
  }

  predicate AllIntSkipped(s: string)
  {
    forall i :: 0 <= i < |s| ==> IsIntSkipped(s[i])
  }

  /**
   * The text int() scans: every whitespace character from code point 127 on
   * is replaced by a blank, and every character below 127 is kept as it is.
   */
  function IntText(s: string): (r: string)
    ensures |r| == |s|
  {
    seq(|s|, i requires 0 <= i < |s| => if IsSpace(s[i]) && s[i] as int >= 127 then ' ' else s[i])
  }

  /** s without its leading int() whitespace. */
  function IntStripLeft(s: string): (r: string)
    ensures |r| <= |s| && r == s[|s| - |r|..]
    ensures forall k :: 0 <= k < |s| - |r| ==> IsIntSpace(s[k])
    ensures r == [] || !IsIntSpace(r[0])
  {
    if s != [] && IsIntSpace(s[0]) then
      var t := s[1..];
      var r := IntStripLeft(t);
      assert forall k :: 0 < k < |s| - |r| ==> s[k] == t[k - 1];
      r
    else s
  }

  /** s without its trailing int() whitespace. */
  function IntStripRight(s: string): (r: string)
    ensures |r| <= |s| && r == s[..|r|]
    ensures forall k :: |r| <= k < |s| ==> IsIntSpace(s[k])
    ensures r == [] || !IsIntSpace(r[|r| - 1])
  {
    if s != [] && IsIntSpace(s[|s| - 1]) then
      var t := s[..|s| - 1];
      var r := IntStripRight(t);
      assert forall k :: |r| <= k < |t| ==> s[k] == t[k];
      r
    else s
  }

  /**
   * Python's int(s): the text is rewritten as above, int() whitespace around
   * it is skipped, and the rest must be an optional sign followed by one or
   * more decimal digits.
   */
  function ParseInt(s: string): Option<int>
  {
    ParseSigned(IntStripRight(IntStripLeft(IntText(s))))
  }

  function DigitChar(d: nat): (c: char)
    requires d < 10
    ensures IsDigit(c) && c as int - '0' as int == d
  {
    ('0' as int + d) as char
  }

  /** The decimal digits of n, without leading zeros. */
  function Digits(n: nat): (r: string)
    ensures r != [] && AllDigits(r)
  {
    if n < 10 then [DigitChar(n)] else Digits(n / 10) + [DigitChar(n % 10)]
  }

  /**
   * n written in decimal, with a minus sign when negative, as Python's str(n)
   * writes it when n fits the digit limit (beyond it, str(n) raises ValueError).
   */
  function Decimal(n: int): string
  {
    if n < 0 then "-" + Digits(-n) else Digits(n)
  }

  /** n has at most MaxStrDigits decimal digits, so str() and int() convert it. */
  predicate FitsStrDigits(n: int)
  {
    |Digits(if n < 0 then -n else n)| <= MaxStrDigits
  }

  lemma {:induction false} DigitsValueOf(n: nat)
    ensures DigitsValue(Digits(n)) == n
    decreases n
  {
    if n >= 10 {
      var d := Digits(n);
      assert d[..|d| - 1] == Digits(n / 10);
      DigitsValueOf(n / 10);
    }
  }

  /** A decimal string, its first and last characters, and what it is free of. */
  lemma DecimalShape(n: int)
    ensures Decimal(n) != [] && NoSpace(Decimal(n))
    ensures forall i :: 0 <= i < |Decimal(n)| ==> !('A' <= Decimal(n)[i] <= 'Z')
    ensures IsDigit(Decimal(n)[|Decimal(n)| - 1])
  {
  }

  /** int() reads back what str() writes: ParseInt is a left inverse of Decimal. */
  lemma ParseIntDecimal(n: int)
    requires FitsStrDigits(n)
    ensures ParseInt(Decimal(n)) == Some(n)
  {
    DecimalShape(n);
    ParseIntToken(Decimal(n));
    ParseSignedDecimal(n);
  }

  lemma ParseSignedDecimal(n: int)
    requires FitsStrDigits(n)
    ensures ParseSigned(Decimal(n)) == Some(n)
  {
    if n < 0 {
      var d := Decimal(n);
      assert d[0] == '-' && d[1..] == Digits(-n);
      DigitsValueOf(-n);
    } else {
      var d := Digits(n);
      assert !(d[0] == '+' || d[0] == '-') by {
        assert IsDigit(d[0]);
      }
      DigitsValueOf(n);
    }
  }

  /** More digits than the limit make int() fail, with or without a sign. */
  lemma ParseSignedTooLong(sign: string, d: string)
    requires sign == [] || sign == "+" || sign == "-"
    requires AllDigits(d) && |d| > MaxStrDigits
    ensures ParseSigned(sign + d) == None
  {
    var t := sign + d;
    if sign == [] {
      assert t == d && !(t[0] == '+' || t[0] == '-') by {
        assert IsDigit(d[0]);
      }
    } else {
      assert t[1..] == d;
    }
  }

  /** Whitespace inside the stripped text makes int() fail. */
  lemma ParseSignedSpace(t: string, k: nat)
    requires k < |t| && IsSpace(t[k])
    ensures ParseSigned(t) == None
  {
    if t[0] == '+' || t[0] == '-' {
      assert !IsDigit(t[1..][k - 1]);
    } else {
      assert !IsDigit(t[k]);
    }
  }

  /** int() does not see the case of its argument. */
  lemma ParseSignedLower(t: string)
    ensures ParseSigned(Lower(t)) == ParseSigned(t)
  {
    var l := Lower(t);
    if t != [] {
      assert l[0] == '+' <==> t[0] == '+';
      assert l[0] == '-' <==> t[0] == '-';
    }
    var signed := t != [] && (t[0] == '+' || t[0] == '-');
    var d := if signed then t[1..] else t;
    var ld := if signed then l[1..] else l;
    assert ld == Lower(d);
    if AllDigits(d) {
      LowerUnchanged(d);
    } else {
      var i :| 0 <= i < |d| && !IsDigit(d[i]);
      assert !IsDigit(ld[i]);
    }
  }

  /**
   * The rewrite int() applies keeps whitespace where it is, keeps every other
   * character, and makes exactly the whitespace int() skips into int() whitespace.
   */
  lemma IntTextFacts(s: string)
    ensures forall i :: 0 <= i < |s| ==> (IsSpace(IntText(s)[i]) <==> IsSpace(s[i]))
    ensures forall i :: 0 <= i < |s| ==> (IsIntSpace(IntText(s)[i]) <==> IsIntSkipped(s[i]))
    ensures forall i :: 0 <= i < |s| ==> !IsSpace(s[i]) ==> IntText(s)[i] == s[i]
  {
  }

  /** int() skips exactly the int() whitespace in front of s[i] and behind s[j - 1]. */
  lemma IntTrimExact(x: string, i: nat, j: nat)
    requires i < j <= |x| && !IsIntSpace(x[i]) && !IsIntSpace(x[j - 1])
    requires forall k :: 0 <= k < i ==> IsIntSpace(x[k])
    requires forall k :: j <= k < |x| ==> IsIntSpace(x[k])
    ensures IntStripRight(IntStripLeft(x)) == x[i..j]
  {
    assert IntStripLeft(x) == x[i..] by { IntStripLeftExact(x, i); }
    IntStripRightOfSuffix(x, i, j);
  }

  /** int() skips exactly the int() whitespace in front of x[i]. */
  lemma IntStripLeftExact(x: string, i: nat)
    requires i < |x| && !IsIntSpace(x[i]) && forall k :: 0 <= k < i ==> IsIntSpace(x[k])
    ensures IntStripLeft(x) == x[i..]
  {
    assert |x| - |IntStripLeft(x)| == i;
  }

  /** int() skips exactly the int() whitespace behind x[j - 1], in any suffix x[i..] that reaches it. */
  lemma IntStripRightOfSuffix(x: string, i: nat, j: nat)
    requires i < j <= |x| && !IsIntSpace(x[j - 1]) && forall k :: j <= k < |x| ==> IsIntSpace(x[k])
    ensures IntStripRight(x[i..]) == x[i..j]
  {
    var l := x[i..];
    assert |IntStripRight(l)| == j - i;
    SliceOfSuffix(x, i, j);
  }

  /** A suffix of a suffix is a suffix. */
  lemma SuffixOfSuffix<A>(x: seq<A>, i: nat, n: nat)
    requires i + n <= |x|
    ensures x[i..][n..] == x[i + n..]
  {
  }

  /** A prefix of a suffix is a slice. */
  lemma SliceOfSuffix<A>(x: seq<A>, i: nat, j: nat)
    requires i <= j <= |x|
    ensures x[i..][..j - i] == x[i..j]
  {
  }

  /** int() rejects x when what lies around x[i..j] is whitespace and x[i..j] is not an integer. */
  lemma IntTrimRejects(x: string, i: nat, j: nat)
    requires i <= j <= |x| && (i < j ==> !IsSpace(x[i]) && !IsSpace(x[j - 1]))
    requires forall k :: 0 <= k < i ==> IsSpace(x[k])
    requires forall k :: j <= k < |x| ==> IsSpace(x[k])
    requires ParseSigned(x[i..j]) == None
    ensures ParseSigned(IntStripRight(IntStripLeft(x))) == None
  {
    var lo, r := IntTrimWindow(x);
    WindowRejects(x, i, j, lo, r);
  }

  /** What int() keeps of x is not an integer when x[i..j], the token between the whitespace, is not. */
  lemma WindowRejects(x: string, i: nat, j: nat, lo: nat, r: string)
    requires i <= j <= |x| && (i < j ==> !IsSpace(x[i]) && !IsSpace(x[j - 1]))
    requires forall k :: 0 <= k < i ==> IsSpace(x[k])
    requires forall k :: j <= k < |x| ==> IsSpace(x[k])
    requires ParseSigned(x[i..j]) == None
    requires lo + |r| <= |x| && r == x[lo..lo + |r|]
    requires forall k :: 0 <= k < lo ==> IsIntSpace(x[k])
    requires forall k :: lo + |r| <= k < |x| ==> IsIntSpace(x[k])
    ensures ParseSigned(r) == None
  {
    if !NoSpace(r) {
      var k :| 0 <= k < |r| && IsSpace(r[k]);
      ParseSignedSpace(r, k);
    } else if r != [] {
      SameWindow(x, i, j, lo, r);
    }
  }

  /**
   * A whitespace-free window x[lo..lo + |r|] with only int() whitespace
   * around it is the whitespace-free window x[i..j] with only whitespace around it.
   */
  lemma SameWindow(x: string, i: nat, j: nat, lo: nat, r: string)
    requires i <= j <= |x| && (i < j ==> !IsSpace(x[i]) && !IsSpace(x[j - 1]))
    requires forall k :: 0 <= k < i ==> IsSpace(x[k])
    requires forall k :: j <= k < |x| ==> IsSpace(x[k])
    requires r != [] && NoSpace(r) && lo + |r| <= |x| && r == x[lo..lo + |r|]
    requires forall k :: 0 <= k < lo ==> IsIntSpace(x[k])
    requires forall k :: lo + |r| <= k < |x| ==> IsIntSpace(x[k])
    ensures r == x[i..j]
  {
    var hi := lo + |r|;
    assert !IsSpace(x[lo]) && !IsSpace(x[hi - 1]) by {
      assert r[0] == x[lo] && r[|r| - 1] == x[hi - 1];
    }
    assert i <= lo < j && lo < hi <= j;
    assert lo == i by {
      assert !IsIntSpace(x[i]);
    }
    assert hi == j by {
      assert !IsIntSpace(x[j - 1]);
    }
  }

  /** What int() keeps of x is the window x[lo..lo + |r|], with only int() whitespace around it. */
  lemma IntTrimWindow(x: string) returns (lo: nat, r: string)
    ensures r == IntStripRight(IntStripLeft(x))
    ensures lo + |r| <= |x| && r == x[lo..lo + |r|]
    ensures forall k :: 0 <= k < lo ==> IsIntSpace(x[k])
    ensures forall k :: lo + |r| <= k < |x| ==> IsIntSpace(x[k])
  {
    var l := IntStripLeft(x);
    lo := |x| - |l|;
    r := IntStripRight(l);
    WindowOfSuffix(x, lo, l, r);
  }

  /** A prefix r of the suffix x[lo..], followed there by int() whitespace only, is a window of x. */
  lemma WindowOfSuffix(x: string, lo: nat, l: string, r: string)
    requires lo <= |x| && l == x[lo..] && |r| <= |l| && r == l[..|r|]
    requires forall k :: |r| <= k < |l| ==> IsIntSpace(l[k])
    ensures r == x[lo..lo + |r|]
    ensures forall k :: lo + |r| <= k < |x| ==> IsIntSpace(x[k])
  {
    SliceOfSuffix(x, lo, lo + |r|);
    forall k | lo + |r| <= k < |x| ensures IsIntSpace(x[k]) {
      assert l[k - lo] == x[k];
    }
  }

  /** A whitespace character that int() does not skip survives the skipping, so int() rejects x. */
  lemma IntTrimKeepsSpace(x: string, p: nat)
    requires p < |x| && IsSpace(x[p]) && !IsIntSpace(x[p])
    ensures ParseSigned(IntStripRight(IntStripLeft(x))) == None
  {
    var l := IntStripLeft(x);
    var lo := |x| - |l|;
    var r := IntStripRight(l);
    assert lo <= p < lo + |r|;
    assert r[p - lo] == x[p];
    ParseSignedSpace(r, p - lo);
  }

  /**
   * int() reads s as s[i..j] when s[i..j] is free of whitespace and what lies
   * around it is whitespace that int() skips.
   */
  lemma ParseIntAccepts(s: string, i: nat, j: nat)
    requires i < j <= |s| && NoSpace(s[i..j]) && AllIntSkipped(s[..i]) && AllIntSkipped(s[j..])
    ensures ParseInt(s) == ParseSigned(s[i..j])
  {
    var x := IntText(s);
    IntTextFacts(s);
    assert x[i..j] == s[i..j] by {
      forall k | 0 <= k < j - i ensures x[i..j][k] == s[i..j][k] {
        assert !IsSpace(s[i..j][k]);
      }
    }
    forall k | 0 <= k < i ensures IsIntSpace(x[k]) {
      assert s[..i][k] == s[k];
    }
    forall k | j <= k < |s| ensures IsIntSpace(x[k]) {
      assert s[j..][k - j] == s[k];
    }
    assert !IsSpace(s[i..j][0]) && !IsSpace(s[i..j][j - i - 1]);
    IntTrimExact(x, i, j);
  }

  /** int() rejects s when what lies around s[i..j] is whitespace and s[i..j] is not an integer. */
  lemma ParseIntRejects(s: string, i: nat, j: nat)
    requires i <= j <= |s| && AllSpace(s[..i]) && AllSpace(s[j..])
    requires i < j ==> !IsSpace(s[i]) && !IsSpace(s[j - 1])
    requires ParseSigned(s[i..j]) == None
    ensures ParseInt(s) == None
  {
    var x := IntText(s);
    IntTextFacts(s);
    forall k | 0 <= k < i ensures IsSpace(x[k]) {
      assert s[..i][k] == s[k];
    }
    forall k | j <= k < |s| ensures IsSpace(x[k]) {
      assert s[j..][k - j] == s[k];
    }
    if NoSpace(s[i..j]) {
      assert x[i..j] == s[i..j] by {
        forall k | 0 <= k < j - i ensures x[i..j][k] == s[i..j][k] {
          assert !IsSpace(s[i..j][k]);
        }
      }
    } else {
      var k :| 0 <= k < j - i && IsSpace(s[i..j][k]);
      assert IsSpace(x[i..j][k]);
      ParseSignedSpace(x[i..j], k);
    }
    IntTrimRejects(x, i, j);
  }

  /** The three pieces of w1 + a + w2, recovered by slicing. */
  lemma PiecesOf(w1: string, a: string, w2: string)
    ensures var s := w1 + a + w2;
      s[..|w1|] == w1 && s[|w1|..|w1| + |a|] == a && s[|w1| + |a|..] == w2
  {
  }

  /** int() reads a whitespace-free token padded with whitespace it skips as the token itself. */
  lemma ParseIntPadded(w1: string, a: string, w2: string)
    requires AllIntSkipped(w1) && AllIntSkipped(w2) && a != [] && NoSpace(a)
    ensures ParseInt(w1 + a + w2) == ParseSigned(a)
  {
    PiecesOf(w1, a, w2);
    ParseIntAccepts(w1 + a + w2, |w1|, |w1| + |a|);
  }

  /** int() reads a whitespace-free token as the token itself. */
  lemma ParseIntToken(a: string)
    requires a != [] && NoSpace(a)
    ensures ParseInt(a) == ParseSigned(a)
  {
    var padded := [] + a + [];
    assert padded == a;
    assert ParseInt(padded) == ParseSigned(a) by {
      ParseIntPadded([], a, []);
    }
  }

  /** int() rejects a padded core that starts and ends with a non-space and is not an integer. */
  lemma ParseIntRejectsPadded(w1: string, t: string, w2: string)
    requires AllSpace(w1) && AllSpace(w2)
    requires t != [] ==> !IsSpace(t[0]) && !IsSpace(t[|t| - 1])
    requires ParseSigned(t) == None
    ensures ParseInt(w1 + t + w2) == None
  {
    PiecesOf(w1, t, w2);
    ParseIntRejects(w1 + t + w2, |w1|, |w1| + |t|);
  }

  // ---------------------------------------------------------------------------
  // ByteCount
  // ---------------------------------------------------------------------------

  /** The outcome of parsing: a byte count, or the FormatError the parser raises. */
  datatype Parse = Parsed(count: ByteCount) | FormatError

  /** What the constructor accepts: a string to parse or an integer (a ByteCount is one). */
  datatype Arg = Text(s: string) | Integer(n: int)

  /** m is the magnitude of value in base b: the least m >= 0 with value <= b^(m+1). */
  predicate IsMagnitude(value: int, b: nat, m: nat)
  {
    value <= Pow(b, m + 1) && forall k :: 1 <= k <= m ==> Pow(b, k) < value
  }

  lemma PowGrows(b: nat, e: nat)
    requires b >= 2
    ensures Pow(b, e + 1) > Pow(b, e)
  {
    var p := Pow(b, e);
    assert Pow(b, e + 1) == b * p;
    assert b * p == p + (b - 1) * p;
    assert (b - 1) * p >= p;
  }

  /**
   * The counting loop shared by both magnitudes: try i = 1, 2, ... and stop
   * at the first i with value <= b^i, answering i - 1.
   */
  method Magnitude(value: int, b: nat) returns (m: nat)
    requires b >= 2
    ensures IsMagnitude(value, b, m)
    ensures value <= b ==> m == 0
  {
    var i: nat := 1;
    while value > Pow(b, i)
      invariant i >= 1
      invariant forall k :: 1 <= k < i ==> Pow(b, k) < value
      decreases value - Pow(b, i)
    {
      PowGrows(b, i);
      i := i + 1;
    }
    m := i - 1;
  }

  /** A value has exactly one magnitude in a given base. */
  lemma MagnitudeUnique(value: int, b: nat, m1: nat, m2: nat)
    requires IsMagnitude(value, b, m1) && IsMagnitude(value, b, m2)
    ensures m1 == m2
  {
  }

  /** A byte count: an integer number of bytes. */
  datatype ByteCount = ByteCount(value: int)
  {
    /** The power of 1024 the count lies above: b^m < value <= b^(m+1) for b = 1024. */
    method MagnitudeIEC() returns (m: nat)
      ensures IsMagnitude(value, 1024, m)
      ensures value <= 1024 ==> m == 0
    {
      m := Magnitude(value, 1024);
    }

    /** The power of 1000 the count lies above: b^m < value <= b^(m+1) for b = 1000. */
    method MagnitudeSI() returns (m: nat)
      ensures IsMagnitude(value, 1000, m)
      ensures value <= 1000 ==> m == 0
    {
      m := Magnitude(value, 1000);
    }

    /**
     * Parses a byte count: a bare integer, or an integer and a unit of the
     * table separated by whitespace, in any case and with any surrounding
     * whitespace; anything else is a FormatError.
     */
    static function FromStr(s: string): Parse
    {
      match ParseInt(s)
      case Some(n) => Parsed(ByteCount(n))
      case None =>
        var m := Split(Lower(Strip(s)));
        if |m| != 2 then FormatError
        else
          match ParseInt(m[0])
          case None => FormatError
          case Some(n) => if m[1] in Prefixes then Parsed(ByteCount(n * Prefixes[m[1]])) else FormatError
    }

    /** The constructor: a string is parsed, an integer is wrapped as it is. */
    static function New(a: Arg): Parse
    {
      match a
      case Text(s) => FromStr(s)
      case Integer(n) => Parsed(ByteCount(n))
    }
  }

  /**
   * An integer token (sign, leading zeros and all) with whitespace around it
   * that int() skips parses to the integer it denotes.
   */
  lemma FromStrInteger(w1: string, a: string, w2: string)
    requires AllIntSkipped(w1) && AllIntSkipped(w2) && a != [] && NoSpace(a) && ParseSigned(a).Some?
    ensures ByteCount.FromStr(w1 + a + w2) == Parsed(ByteCount(ParseSigned(a).value))
  {
    ParseIntPadded(w1, a, w2);
  }

  /**
   * Whitespace that split() skips but int() does not (the four separator
   * controls) around a lone token makes it a FormatError, even an integer one.
   */
  lemma FromStrControlPadding(w1: string, a: string, w2: string, p: nat)
    requires AllSpace(w1) && AllSpace(w2) && a != [] && NoSpace(a)
    requires p < |w1 + a + w2| && IsSpace((w1 + a + w2)[p]) && !IsIntSkipped((w1 + a + w2)[p])
    ensures ByteCount.FromStr(w1 + a + w2) == FormatError
  {
    var s := w1 + a + w2;
    assert ParseInt(s) == None by {
      IntTextFacts(s);
      IntTrimKeepsSpace(IntText(s), p);
    }
    assert Strip(s) == a by {
      StripPadded(w1, a, w2);
    }
    LowerNoSpace(a);
    SplitOne(Lower(a));
  }

  /** "\x1c5" is a FormatError: int() does not skip the file separator, although split() does. */
  lemma FromStrFileSeparator()
    ensures ByteCount.FromStr("\U{1C}5") == FormatError
  {
    assert "\U{1C}5" == "\U{1C}" + "5" + [];
    FromStrControlPadding("\U{1C}", "5", [], 0);
  }

  /** Two whitespace-separated tokens are not an integer. */
  lemma TwoTokensNotInt(w1: string, a: string, w2: string, u: string, w3: string)
    requires AllSpace(w1) && AllSpace(w2) && w2 != [] && AllSpace(w3)
    requires a != [] && NoSpace(a) && u != [] && NoSpace(u)
    ensures Strip(w1 + a + w2 + u + w3) == a + w2 + u
    ensures ParseInt(w1 + a + w2 + u + w3) == None
  {
    var core := a + w2 + u;
    assert w1 + a + w2 + u + w3 == w1 + core + w3;
    StripPadded(w1, core, w3);
    assert core[|a|] == w2[0];
    ParseSignedSpace(core, |a|);
    ParseIntRejectsPadded(w1, core, w3);
  }

  /** Two whitespace-separated tokens split, lower-cased, into the two tokens lower-cased. */
  lemma TwoTokensSplit(w1: string, a: string, w2: string, u: string, w3: string)
    requires AllSpace(w1) && AllSpace(w2) && w2 != [] && AllSpace(w3)
    requires a != [] && NoSpace(a) && u != [] && NoSpace(u)
    ensures Split(Lower(Strip(w1 + a + w2 + u + w3))) == [Lower(a), Lower(u)]
  {
    TwoTokensNotInt(w1, a, w2, u, w3);
    var core := a + w2 + u;
    assert Lower(core) == Lower(a) + w2 + Lower(u) by {
      LowerAppend(a + w2, u);
      LowerAppend(a, w2);
      LowerUnchanged(w2);
    }
    LowerNoSpace(a);
    LowerNoSpace(u);
    SplitTwo(Lower(a), w2, Lower(u));
  }

  /** A token that int() accepts is read the same after lower-casing. */
  lemma ParseIntLowerToken(a: string)
    requires a != [] && NoSpace(a)
    ensures ParseInt(Lower(a)) == ParseSigned(a)
  {
    LowerNoSpace(a);
    ParseIntToken(Lower(a));
    ParseSignedLower(a);
  }

  /**
   * "<scalar> <unit>" is the scalar times the unit's value, whatever the case
   * of the unit and the whitespace around, for every scalar int() accepts.
   */
  lemma FromStrWithUnit(w1: string, a: string, w2: string, u: string, w3: string)
    requires AllSpace(w1) && AllSpace(w2) && w2 != [] && AllSpace(w3)
    requires a != [] && NoSpace(a) && ParseSigned(a).Some?
    requires u != [] && NoSpace(u) && Lower(u) in Prefixes
    ensures ByteCount.FromStr(w1 + a + w2 + u + w3) == Parsed(ByteCount(ParseSigned(a).value * Prefixes[Lower(u)]))
  {
    var s := w1 + a + w2 + u + w3;
    assert ParseInt(s) == None by {
      TwoTokensNotInt(w1, a, w2, u, w3);
    }
    assert Split(Lower(Strip(s))) == [Lower(a), Lower(u)] by {
      TwoTokensSplit(w1, a, w2, u, w3);
    }
    assert ParseInt(Lower(a)) == ParseSigned(a) by {
      ParseIntLowerToken(a);
    }
    FromStrScaled(s, Lower(a), Lower(u), ParseSigned(a).value);
  }

  /** A string that is not an integer but splits into an integer and a unit is their product. */
  lemma FromStrScaled(s: string, t: string, unit: string, n: int)
    requires ParseInt(s) == None && Split(Lower(Strip(s))) == [t, unit]
    requires ParseInt(t) == Some(n) && unit in Prefixes
    ensures ByteCount.FromStr(s) == Parsed(ByteCount(n * Prefixes[unit]))
  {
  }

  /** A unit that is not in the table is a FormatError, for every scalar int() accepts. */
  lemma FromStrUnknownUnit(w1: string, a: string, w2: string, u: string, w3: string)
    requires AllSpace(w1) && AllSpace(w2) && w2 != [] && AllSpace(w3)
    requires a != [] && NoSpace(a) && ParseSigned(a).Some?
    requires u != [] && NoSpace(u) && Lower(u) !in Prefixes
    ensures ByteCount.FromStr(w1 + a + w2 + u + w3) == FormatError
  {
    var s := w1 + a + w2 + u + w3;
    assert ParseInt(s) == None by {
      TwoTokensNotInt(w1, a, w2, u, w3);
    }
    assert Split(Lower(Strip(s))) == [Lower(a), Lower(u)] by {
      TwoTokensSplit(w1, a, w2, u, w3);
    }
    assert ParseInt(Lower(a)) == ParseSigned(a) by {
      ParseIntLowerToken(a);
    }
  }

  /** A scalar that int() rejects is a FormatError, whatever the unit. */
  lemma FromStrBadScalar(w1: string, a: string, w2: string, u: string, w3: string)
    requires AllSpace(w1) && AllSpace(w2) && w2 != [] && AllSpace(w3)
    requires a != [] && NoSpace(a) && ParseSigned(a) == None && u != [] && NoSpace(u)
    ensures ByteCount.FromStr(w1 + a + w2 + u + w3) == FormatError
  {
    var s := w1 + a + w2 + u + w3;
    assert ParseInt(s) == None by {
      TwoTokensNotInt(w1, a, w2, u, w3);
    }
    assert Split(Lower(Strip(s))) == [Lower(a), Lower(u)] by {
      TwoTokensSplit(w1, a, w2, u, w3);
    }
    assert ParseInt(Lower(a)) == ParseSigned(a) by {
      ParseIntLowerToken(a);
    }
  }

  /**
   * A lone integer token with more digits than the limit is a FormatError:
   * int() raises on it, and one token is not a scalar and a unit.
   */
  lemma FromStrTooManyDigits(w1: string, sign: string, d: string, w2: string)
    requires AllSpace(w1) && AllSpace(w2)
    requires sign == [] || sign == "+" || sign == "-"
    requires AllDigits(d) && |d| > MaxStrDigits
    ensures ByteCount.FromStr(w1 + (sign + d) + w2) == FormatError
  {
    ParseSignedTooLong(sign, d);
    assert NoSpace(sign + d) by {
      assert forall i :: 0 <= i < |sign + d| ==> (sign + d)[i] == '+' || (sign + d)[i] == '-' || IsDigit((sign + d)[i]);
    }
    FromStrOneToken(w1, sign + d, w2);
  }

  /** A scalar with more digits than the limit is a FormatError, whatever the unit. */
  lemma FromStrScalarTooLong(w1: string, sign: string, d: string, w2: string, u: string, w3: string)
    requires AllSpace(w1) && AllSpace(w2) && w2 != [] && AllSpace(w3)
    requires sign == [] || sign == "+" || sign == "-"
    requires AllDigits(d) && |d| > MaxStrDigits && u != [] && NoSpace(u)
    ensures ByteCount.FromStr(w1 + (sign + d) + w2 + u + w3) == FormatError
  {
    ParseSignedTooLong(sign, d);
    assert NoSpace(sign + d) by {
      assert forall i :: 0 <= i < |sign + d| ==> (sign + d)[i] == '+' || (sign + d)[i] == '-' || IsDigit((sign + d)[i]);
    }
    FromStrBadScalar(w1, sign + d, w2, u, w3);
  }

  /** A single token that is not an integer is a FormatError. */
  lemma FromStrOneToken(w1: string, t: string, w2: string)
    requires AllSpace(w1) && AllSpace(w2) && t != [] && NoSpace(t) && ParseSigned(t) == None
    ensures ByteCount.FromStr(w1 + t + w2) == FormatError
  {
    assert Strip(w1 + t + w2) == t by {
      StripPadded(w1, t, w2);
    }
    ParseIntRejectsPadded(w1, t, w2);
    LowerNoSpace(t);
    SplitOne(Lower(t));
  }

  /** More than one token is never an integer. */
  lemma ParseIntManyTokens(s: string)
    requires |Split(s)| > 1
    ensures ParseInt(s) == None
  {
    var l := StripLeft(s);
    var i := |s| - |l|;
    var r := Strip(s);
    var j := i + |r|;
    SplitStrip(s);
    assert r != [] && !NoSpace(r) by {
      if r != [] && NoSpace(r) {
        SplitOne(r);
      }
    }
    var k :| 0 <= k < |r| && IsSpace(r[k]);
    ParseSignedSpace(r, k);
    assert s[i..j] == r by {
      SliceOfSuffix(s, i, j);
    }
    assert AllSpace(s[j..]) by {
      SuffixOfSuffix(s, i, |r|);
    }
    assert !IsSpace(s[i]) && !IsSpace(s[j - 1]) by {
      assert s[i] == r[0] && s[j - 1] == r[|r| - 1];
    }
    ParseIntRejects(s, i, j);
  }

  /** Three or more tokens are a FormatError. */
  lemma FromStrManyTokens(s: string)
    requires |Split(s)| > 2
    ensures ByteCount.FromStr(s) == FormatError
  {
    ParseIntManyTokens(s);
    SplitStrip(s);
    LowerSameSpaces(Strip(s));
    SplitSameSpaces(Lower(Strip(s)), Strip(s));
  }

  /** A blank string is a FormatError. */
  lemma FromStrBlank(w: string)
    requires AllSpace(w)
    ensures ByteCount.FromStr(w) == FormatError
  {
    assert StripLeft(w) == [];
    ParseIntRejectsPadded(w, [], []);
    assert w + [] + [] == w;
  }

  /** Case and surrounding whitespace do not matter: " 2 KiB " is 2048 bytes. */
  lemma FromStrKibibytes()
    ensures ByteCount.FromStr(" 2 KiB ") == Parsed(ByteCount(2048))
  {
    assert " 2 KiB " == " " + "2" + " " + "KiB" + " ";
    assert ParseSigned("2") == Some(2);
    assert Lower("KiB") == "kib";
    assert Prefixes["kib"] == 1024 by {
      assert ("kib", Pow(1024, 1)) in PrefixLines[1];
      PrefixesListed(1, ("kib", Pow(1024, 1)));
    }
    FromStrWithUnit(" ", "2", " ", "KiB", " ");
  }

  /** Signs and leading zeros are the scalar's own business: "+007 kB" is 7000 bytes. */
  lemma FromStrLeadingZeros()
    ensures ByteCount.FromStr("+007 kB") == Parsed(ByteCount(7000))
  {
    assert "+007 kB" == [] + "+007" + " " + "kB" + [];
    assert ParseSigned("+007") == Some(7) by {
      assert "+007"[1..] == "007";
      assert DigitsValue("007") == 7 by {
        assert "007"[..2] == "00" && "00"[..1] == "0" && "0"[..0] == [];
      }
    }
    assert Lower("kB") == "kb";
    assert Prefixes["kb"] == 1000 by {
      assert ("kb", Pow(1000, 1)) in PrefixLines[11];
      PrefixesListed(11, ("kb", Pow(1000, 1)));
    }
    FromStrWithUnit([], "+007", " ", "kB", []);
  }

  /** A unit glued to its number is one token: "10kib" is a FormatError. */
  lemma FromStrGluedUnit()
    ensures ByteCount.FromStr("10kib") == FormatError
  {
    assert ParseSigned("10kib") == None by {
      assert !IsDigit("10kib"[2]);
    }
    var padded := [] + "10kib" + [];
    assert padded == "10kib";
    assert ByteCount.FromStr(padded) == FormatError by {
      FromStrOneToken([], "10kib", []);
    }
  }

  /** A fractional scalar is not an integer: "1.5 kb" is a FormatError. */
  lemma FromStrFraction()
    ensures ByteCount.FromStr("1.5 kb") == FormatError
  {
    assert "1.5 kb" == [] + "1.5" + " " + "kb" + [];
    assert ParseSigned("1.5") == None by {
      assert !IsDigit("1.5"[1]);
    }
    FromStrBadScalar([], "1.5", " ", "kb", []);
  }

  /**
   * The constructor exactly as written: an integer argument is handed back to
   * the class itself instead of to the integer type's own constructor, and so
   * is every integer the parser produces. `fuel` bounds the nesting of those
   * calls; None means the bound ran out before the call returned.
   */
  function NewAsWritten(a: Arg, fuel: nat): Option<Parse>
    decreases fuel
  {
    if fuel == 0 then None
    else
      match a
      case Integer(n) => NewAsWritten(Integer(n), fuel - 1)
      case Text(s) =>
        match ByteCount.FromStr(s)
        case FormatError => Some(FormatError)
        case Parsed(c) => NewAsWritten(Integer(c.value), fuel - 1)
  }

  /**
   * As written, the constructor never returns a byte count, however deep the
   * nesting is allowed to go: an integer never returns at all, and a string
   * either raises FormatError or never returns.
   */
  lemma {:induction false} NewAsWrittenNeverReturns(a: Arg, fuel: nat)
    ensures a.Integer? ==> NewAsWritten(a, fuel) == None
    ensures NewAsWritten(a, fuel) == None || NewAsWritten(a, fuel) == Some(FormatError)
    decreases fuel
  {
    if fuel > 0 {
      match a
      case Integer(n) =>
        NewAsWrittenNeverReturns(Integer(n), fuel - 1);
      case Text(s) =>
        match ByteCount.FromStr(s)
        case FormatError =>
        case Parsed(c) => NewAsWrittenNeverReturns(Integer(c.value), fuel - 1);
    }
  }

  /**
   * The constructor gives the same count for an integer and for its decimal
   * string, for every integer str() can write.
   */
  lemma NewAgrees(n: int)
    requires FitsStrDigits(n)
    ensures ByteCount.New(Text(Decimal(n))) == ByteCount.New(Integer(n))
  {
    var padded := [] + Decimal(n) + [];
    assert padded == Decimal(n);
    assert ByteCount.FromStr(padded) == Parsed(ByteCount(n)) by {
      DecimalShape(n);
      ParseSignedDecimal(n);
      FromStrInteger([], Decimal(n), []);
    }
  }
}
