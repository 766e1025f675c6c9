/** The three functions of Go's `strings` package that the upstream list
    sanitiser relies on (`Split`, `Trim` with a one-character cutset and
    `TrimPrefix`), together with `Join`, their inverse, modelled on
    `seq<char>`. Go works on UTF-8 bytes and runes; every separator and
    cutset used here is a single ASCII character, so working on characters
    gives the same result.
 */
module Strings {

  /** Number of occurrences of `c` in `s`. */
  function Occurrences(s: string, c: char): nat
  {
    if |s| == 0 then 0
    else (if s[0] == c then 1 else 0) + Occurrences(s[1..], c)
  }

  /** Go's `strings.Split(s, string(sep))`: the pieces of `s` between
      consecutive separators, so `n` separators give `n + 1` pieces and the
      empty string gives `[""]`. */
  function Split(s: string, sep: char): (parts: seq<string>)
    ensures |parts| == Occurrences(s, sep) + 1
    ensures forall i :: 0 <= i < |parts| ==> sep !in parts[i]
    decreases |s|
  {
    if |s| == 0 then [""]
    else
      var rest := Split(s[1..], sep);
      if s[0] == sep then [""] + rest
      else [[s[0]] + rest[0]] + rest[1..]
  }

  /** Go's `strings.Join(parts, string(sep))`. */
  function Join(parts: seq<string>, sep: char): string
  {
    if |parts| == 0 then ""
    else if |parts| == 1 then parts[0]
    else parts[0] + [sep] + Join(parts[1..], sep)
  }

  /** Splitting and joining again gives back the original string. */
  lemma {:induction false} JoinSplit(s: string, sep: char)
    ensures Join(Split(s, sep), sep) == s
    decreases |s|
  {
    if |s| > 0 {
      var rest := Split(s[1..], sep);
      JoinSplit(s[1..], sep);
      if s[0] == sep {
        assert ([""] + rest)[1..] == rest;
      } else if |rest| > 1 {
        var parts := [[s[0]] + rest[0]] + rest[1..];
        assert parts[1..] == rest[1..];
        assert Join(rest, sep) == rest[0] + [sep] + Join(rest[1..], sep);
      }
      assert s == [s[0]] + s[1..];
    }
  }

  /** A string without the separator is split into itself alone. */
  lemma {:induction false} SplitNoSeparator(s: string, sep: char)
    requires sep !in s
    ensures Split(s, sep) == [s]
    decreases |s|
  {
    if |s| > 0 {
      SplitNoSeparator(s[1..], sep);
      assert s == [s[0]] + s[1..];
    }
  }

  /** One step of `Split`: the first character either ends the first piece
      (when it is the separator) or is prepended to it. */
  lemma {:induction false} SplitCons(c: char, t: string, sep: char)
    ensures Split([c] + t, sep) ==
            if c == sep then [""] + Split(t, sep)
            else [[c] + Split(t, sep)[0]] + Split(t, sep)[1..]
  {
    assert ([c] + t)[1..] == t;
  }

  /** Prepending to the first piece commutes with appending more pieces. */
  lemma {:induction false} PrependFirst(c: char, x: seq<string>, y: seq<string>)
    requires |x| > 0
    ensures [[c] + (x + y)[0]] + (x + y)[1..] == ([[c] + x[0]] + x[1..]) + y
  {
    assert (x + y)[1..] == x[1..] + y;
  }

  /** The inductive step of `SplitConcat`: prepending a character to `a`
      preserves the equation. */
  lemma {:induction false} SplitConcatStep(c: char, t: string, b: string, sep: char)
    requires Split(t + [sep] + b, sep) == Split(t, sep) + Split(b, sep)
    ensures Split([c] + (t + [sep] + b), sep) == Split([c] + t, sep) + Split(b, sep)
  {
    var st, sb := Split(t, sep), Split(b, sep);
    SplitCons(c, t + [sep] + b, sep);
    SplitCons(c, t, sep);
    if c != sep {
      PrependFirst(c, st, sb);
    } else {
      assert [""] + (st + sb) == ([""] + st) + sb;
    }
  }

  /** A separator between `a` and `b` splits exactly there: the pieces of
      `a` come first, then the pieces of `b`, in order. */
  lemma {:induction false} SplitConcat(a: string, b: string, sep: char)
    ensures Split(a + [sep] + b, sep) == Split(a, sep) + Split(b, sep)
    decreases |a|
  {
    if |a| == 0 {
      assert a + [sep] + b == [sep] + b;
      SplitCons(sep, b, sep);
    } else {
      var c, t := a[0], a[1..];
      assert a == [c] + t;
      assert a + [sep] + b == [c] + (t + [sep] + b);
      SplitConcat(t, b, sep);
      SplitConcatStep(c, t, b, sep);
    }
  }

  /** Joining pieces that are free of the separator and splitting again
      gives back the pieces. */
  lemma {:induction false} SplitJoin(parts: seq<string>, sep: char)
    requires |parts| > 0
    requires forall i :: 0 <= i < |parts| ==> sep !in parts[i]
    ensures Split(Join(parts, sep), sep) == parts
    decreases |parts|
  {
    SplitNoSeparator(parts[0], sep);
    if |parts| > 1 {
      SplitJoin(parts[1..], sep);
      SplitConcat(parts[0], Join(parts[1..], sep), sep);
      assert parts == [parts[0]] + parts[1..];
    }
  }

  /** Every character of `s` is a space. */
  predicate AllSpaces(s: string)
  {
    forall i :: 0 <= i < |s| ==> s[i] == ' '
  }

  /** Go's `strings.TrimLeft(s, " ")`: the longest suffix of `s` that does
      not start with a space. */
  function TrimLeft(s: string): (r: string)
    ensures |r| <= |s| && r == s[|s| - |r|..]
    ensures AllSpaces(s[..|s| - |r|])
    ensures r == [] || r[0] != ' '
    ensures |s| > 0 && s[|s| - 1] != ' ' ==> |r| > 0 && r[|r| - 1] == s[|s| - 1]
    decreases |s|
  {
    if |s| > 0 && s[0] == ' ' then TrimLeft(s[1..]) else s
  }

  /** Go's `strings.TrimRight(s, " ")`: the longest prefix of `s` that does
      not end with a space. */
  function TrimRight(s: string): (r: string)
    ensures |r| <= |s| && r == s[..|r|]
    ensures AllSpaces(s[|r|..])
    ensures r == [] || r[|r| - 1] != ' '
    ensures |s| > 0 && s[0] != ' ' ==> |r| > 0 && r[0] == s[0]
    decreases |s|
  {
    if |s| > 0 && s[|s| - 1] == ' ' then TrimRight(s[..|s| - 1]) else s
  }

  /** Go's `strings.Trim(s, " ")`: `s` without its leading and trailing
      space characters. Only `' '` is removed; tabs and other white space
      are kept. */
  function Trim(s: string): (r: string)
    ensures |r| <= |s|
    ensures r == [] || (r[0] != ' ' && r[|r| - 1] != ' ')
    ensures forall c :: c in r ==> c in s
  {
    TrimRight(TrimLeft(s))
  }

  /** `r` lies between a run of spaces before it and a run after it. */
  ghost predicate SpaceFramed(s: string, r: string)
  {
    exists k :: 0 <= k <= |s| - |r| && s[k..k + |r|] == r
                && AllSpaces(s[..k]) && AllSpaces(s[k + |r|..])
  }

  /** A space-free end `r` of a space-free start `l` of `s` is framed by
      spaces in `s`. */
  lemma {:induction false} SpaceFramedWitness(s: string, l: string, r: string)
    requires |l| <= |s| && l == s[|s| - |l|..] && AllSpaces(s[..|s| - |l|])
    requires |r| <= |l| && r == l[..|r|] && AllSpaces(l[|r|..])
    ensures SpaceFramed(s, r)
  {
    var k := |s| - |l|;
    assert s[k..k + |r|] == r;
    assert s[k + |r|..] == l[|r|..];
  }

  /** The trimmed string is the part of `s` left between a run of leading
      spaces and a run of trailing spaces. */
  lemma {:induction false} TrimInfix(s: string)
    ensures SpaceFramed(s, Trim(s))
  {
    var l := TrimLeft(s);
    assert Trim(s) == TrimRight(l);
    SpaceFramedWitness(s, l, TrimRight(l));
  }

  /** Trimming gives the empty string exactly when `s` is all spaces. */
  lemma {:induction false} TrimEmptyIff(s: string)
    ensures Trim(s) == "" <==> AllSpaces(s)
  {
    TrimInfix(s);
    var k :| 0 <= k <= |s| - |Trim(s)| && s[k..k + |Trim(s)|] == Trim(s)
              && AllSpaces(s[..k]) && AllSpaces(s[k + |Trim(s)|..]);
    if Trim(s) == "" {
      forall i | 0 <= i < |s| ensures s[i] == ' ' {
        if i < k { assert s[..k][i] == s[i]; }
        else { assert s[k..][i - k] == s[i]; }
      }
    } else {
      assert s[k] == Trim(s)[0];
    }
  }

  /** Only the space character is trimmed: a first character that is not
      `' '` (a tab, say) survives. */
  lemma {:induction false} TrimKeepsFirst(s: string)
    requires |s| > 0 && s[0] != ' '
    ensures Trim(s) != [] && Trim(s)[0] == s[0]
  {
    assert TrimLeft(s) == s;
  }

  /** Likewise a last character that is not `' '` survives. */
  lemma {:induction false} TrimKeepsLast(s: string)
    requires |s| > 0 && s[|s| - 1] != ' '
    ensures Trim(s) != [] && Trim(s)[|Trim(s)| - 1] == s[|s| - 1]
  {
    assert TrimRight(TrimLeft(s)) == TrimLeft(s);
  }

  /** A string that neither starts nor ends with a space is left alone. */
  lemma {:induction false} TrimFixed(s: string)
    requires s == [] || (s[0] != ' ' && s[|s| - 1] != ' ')
    ensures Trim(s) == s
  {
    assert TrimLeft(s) == s;
    assert TrimRight(s) == s;
  }

  /** Trimming twice is the same as trimming once. */
  lemma {:induction false} TrimIdempotent(s: string)
    ensures Trim(Trim(s)) == Trim(s)
  {
    TrimFixed(Trim(s));
  }

  /** Go's `strings.TrimPrefix(s, prefix)`: `s` without `prefix` when it
      starts with it (removed once), `s` unchanged otherwise. */
  function TrimPrefix(s: string, prefix: string): (r: string)
    ensures prefix <= s ==> s == prefix + r
    ensures !(prefix <= s) ==> r == s
  {
    if prefix <= s then s[|prefix|..] else s
  }

  /** The prefix is removed exactly once, whatever follows it. */
  lemma {:induction false} TrimPrefixOnce(prefix: string, rest: string)
    ensures TrimPrefix(prefix + rest, prefix) == rest
  {
    var s := prefix + rest;
    assert prefix <= s;
    assert s[|prefix|..] == rest;
  }
}
