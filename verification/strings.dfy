/** String operations of the Python code: `rsplit('_', 1)`, quote doubling, joins, `in`. */
module Strings {
  import opened Base

  const Quote: char := '\''

  /** The pieces, each preceded by `sep`: what a loop of `s += sep + piece` appends. */
  function Prefixed(parts: seq<string>, sep: string): string
  {
    if |parts| == 0 then "" else Prefixed(parts[..|parts| - 1], sep) + sep + parts[|parts| - 1]
  }

  /** `sep.join(parts)`. */
  function Join(parts: seq<string>, sep: string): string
  {
    if |parts| == 0 then "" else parts[0] + Prefixed(parts[1..], sep)
  }

  /** Appending pieces one at a time or in two runs gives the same text. */
  lemma {:induction false} PrefixedConcat(a: seq<string>, b: seq<string>, sep: string)
    ensures Prefixed(a + b, sep) == Prefixed(a, sep) + Prefixed(b, sep)
    decreases |b|
  {
    if |b| == 0 {
      assert a + b == a;
    } else {
      var n := |b| - 1;
      assert (a + b)[..|a + b| - 1] == a + b[..n];
      PrefixedConcat(a, b[..n], sep);
    }
  }

  /** A non-empty run of prefixed pieces is the separator followed by their join. */
  lemma {:induction false} PrefixedIsJoin(parts: seq<string>, sep: string)
    requires |parts| > 0
    ensures Prefixed(parts, sep) == sep + Join(parts, sep)
  {
    var a, b := [parts[0]], parts[1..];
    assert a + b == parts;
    PrefixedConcat(a, b, sep);
    assert Prefixed(a, sep) == sep + parts[0] by {
      assert a[..0] == [];
    }
    assert Join(parts, sep) == parts[0] + Prefixed(b, sep);
    assert (sep + parts[0]) + Prefixed(b, sep) == sep + (parts[0] + Prefixed(b, sep));
  }

  /** Joining two leading pieces before a non-empty list. */
  lemma {:induction false} JoinTwoBefore(x: string, y: string, parts: seq<string>, sep: string)
    requires |parts| > 0
    ensures Join([x, y] + parts, sep) == x + (sep + y + (sep + Join(parts, sep)))
  {
    var all := [x, y] + parts;
    assert all[1..] == [y] + parts;
    PrefixedConcat([y], parts, sep);
    assert Prefixed([y], sep) == sep + y by {
      assert [y][..0] == [];
    }
    PrefixedIsJoin(parts, sep);
  }

  /** Number of occurrences of `c` in `s`. */
  function Count(s: string, c: char): nat
  {
    if |s| == 0 then 0 else (if s[0] == c then 1 else 0) + Count(s[1..], c)
  }

  /** `s.replace("'", "''")`: every quote doubled, everything else kept. */
  function Escape(s: string): (r: string)
    ensures |r| == |s| + Count(s, Quote)
    ensures Quote !in s ==> r == s
  {
    if |s| == 0 then ""
    else (if s[0] == Quote then [Quote, Quote] else [s[0]]) + Escape(s[1..])
  }

  /** How SQL reads the body of a quoted literal: each `''` stands for one `'`. */
  function Unescape(s: string): string
  {
    if |s| == 0 then ""
    else if |s| >= 2 && s[0] == Quote && s[1] == Quote then [Quote] + Unescape(s[2..])
    else [s[0]] + Unescape(s[1..])
  }

  /** Collapsing the doubled quotes recovers the escaped text. */
  lemma {:induction false} UnescapeEscape(s: string)
    ensures Unescape(Escape(s)) == s
  {
    if |s| > 0 {
      var rest := Escape(s[1..]);
      UnescapeEscape(s[1..]);
      if s[0] == Quote {
        assert Escape(s) == [Quote, Quote] + rest;
        assert (([Quote, Quote] + rest)[2..]) == rest;
      } else {
        assert Escape(s) == [s[0]] + rest;
        assert (([s[0]] + rest)[1..]) == rest;
      }
      assert s == [s[0]] + s[1..];
    }
  }

  /** The escaped text equals `None` exactly when the text was `None`. */
  lemma EscapeIsNone(s: string)
    ensures Escape(s) == "None" <==> s == "None"
  {
    if Escape(s) == "None" {
      UnescapeEscape(s);
      assert Unescape("None") == "None";
    }
    if s == "None" {
      assert Quote !in s;
    }
  }

  /** The position of the last occurrence of `c` in `s`. */
  function LastIndexOf(s: string, c: char): (r: Option<nat>)
    ensures r.None? <==> c !in s
    ensures r.Some? ==> r.value < |s| && s[r.value] == c && c !in s[r.value + 1..]
  {
    if |s| == 0 then None
    else if s[|s| - 1] == c then Some(|s| - 1)
    else
      var r := LastIndexOf(s[..|s| - 1], c);
      assert s == s[..|s| - 1] + [s[|s| - 1]];
      assert r.Some? ==> s[r.value + 1..] == s[..|s| - 1][r.value + 1..] + [s[|s| - 1]];
      r
  }

  /** `s.rsplit('_', 1)[1]`: the text after the last underscore, or None when the split
      yields a single piece (indexing it raises IndexError). */
  function Suffix(s: string): (r: Option<string>)
    ensures r.None? <==> '_' !in s
    ensures r.Some? ==> '_' !in r.value && |r.value| < |s|
  {
    match LastIndexOf(s, '_')
    case None => None
    case Some(i) => Some(s[i + 1..])
  }

  /** The text is its prefix, the last underscore and the suffix. */
  lemma SuffixSplit(s: string)
    requires Suffix(s).Some?
    ensures s == s[..|s| - |Suffix(s).value| - 1] + "_" + Suffix(s).value
  {
    var i := LastIndexOf(s, '_').value;
    assert s == s[..i] + "_" + s[i + 1..];
  }

  /** The suffix of `prefix_t` is `t` whenever `t` holds no underscore, whatever the prefix. */
  lemma SuffixOfJoined(prefix: string, t: string)
    requires '_' !in t
    ensures Suffix(prefix + "_" + t) == Some(t)
  {
    var s := prefix + "_" + t;
    assert s[|prefix|] == '_';
    var i := LastIndexOf(s, '_').value;
    assert i == |prefix|;
    assert s[i + 1..] == t;
  }

  /** Python's `sub in s` on strings. */
  predicate Contains(s: string, sub: string)
  {
    sub <= s || (|s| > 0 && Contains(s[1..], sub))
  }

  /** Decimal text of a natural number. */
  function NatToString(n: nat): string
  {
    var d := "0123456789"[n % 10];
    if n < 10 then [d] else NatToString(n / 10) + [d]
  }

  /** `str(i)` for an int. */
  function IntToString(i: int): string
  {
    if i < 0 then "-" + NatToString(-i) else NatToString(i)
  }
}
