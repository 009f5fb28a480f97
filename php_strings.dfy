/** The PHP string built-ins the share bridge relies on, for one-character
    separators: `explode`, `implode`, `strtolower` (ASCII), `str_starts_with`,
    `trim` with a character list of one character, and `basename`. */
module PhpStrings {

  /** Number of occurrences of `c` in `s`. */
  function Count(c: char, s: string): (n: nat)
    ensures n > 0 <==> c in s
    ensures n <= |s|
  {
    if s == [] then 0 else (if s[0] == c then 1 else 0) + Count(c, s[1..])
  }

  /** `explode(sep, s)`: the pieces of `s` between occurrences of `sep`,
      empty pieces included; there is always one piece more than separators. */
  function Explode(sep: char, s: string): (parts: seq<string>)
    ensures |parts| == Count(sep, s) + 1
    ensures forall i :: 0 <= i < |parts| ==> sep !in parts[i]
  {
    if s == [] then [""]
    else
      var rest := Explode(sep, s[1..]);
      if s[0] == sep then [""] + rest
      else [[s[0]] + rest[0]] + rest[1..]
  }

  /** `implode(sep, parts)`. */
  function Implode(sep: char, parts: seq<string>): string
  {
    if parts == [] then ""
    else if |parts| == 1 then parts[0]
    else parts[0] + [sep] + Implode(sep, parts[1..])
  }

  lemma {:induction false} ExplodeWithoutSeparator(sep: char, s: string)
    requires sep !in s
    ensures Explode(sep, s) == [s]
  {
    if s != [] {
      assert s[0] != sep && sep !in s[1..];
      ExplodeWithoutSeparator(sep, s[1..]);
      assert [s[0]] + s[1..] == s;
    }
  }

  /** A separator splits the piece list exactly at its position. */
  lemma {:induction false} ExplodeAtSeparator(sep: char, a: string, b: string)
    ensures Explode(sep, a + [sep] + b) == Explode(sep, a) + Explode(sep, b)
  {
    var s := a + [sep] + b;
    if a == [] {
      assert s[0] == sep && s[1..] == b;
      PrependPiece(Explode(sep, s), Explode(sep, a), [], Explode(sep, b));
    } else {
      assert s[0] == a[0];
      assert s[1..] == a[1..] + [sep] + b;
      ExplodeAtSeparator(sep, a[1..], b);
      var ra, rb := Explode(sep, a[1..]), Explode(sep, b);
      if a[0] == sep {
        PrependPiece(Explode(sep, s), Explode(sep, a), ra, rb);
      } else {
        MergeFirstPiece(Explode(sep, s), Explode(sep, a), [a[0]], ra, rb);
      }
    }
  }

  /** An empty first piece in front of joined piece lists. */
  lemma PrependPiece(e: seq<string>, ea: seq<string>, ra: seq<string>, rb: seq<string>)
    requires e == [""] + (ra + rb) && ea == [""] + ra
    ensures e == ea + rb
  {
  }

  /** Extending the first piece commutes with appending further pieces. */
  lemma MergeFirstPiece(e: seq<string>, ea: seq<string>, h: string, ra: seq<string>, rb: seq<string>)
    requires |ra| >= 1
    requires e == [h + (ra + rb)[0]] + (ra + rb)[1..]
    requires ea == [h + ra[0]] + ra[1..]
    ensures e == ea + rb
  {
    assert (ra + rb)[1..] == ra[1..] + rb;
  }

  /** A leading separator yields an empty first piece. */
  lemma ExplodeLeadingSeparator(sep: char, s: string)
    ensures Explode(sep, [sep] + s) == [""] + Explode(sep, s)
  {
    assert ([sep] + s)[1..] == s;
  }

  /** A separator-free head followed by a separator is the first piece. */
  lemma ExplodeHead(sep: char, a: string, b: string)
    requires sep !in a
    ensures Explode(sep, a + [sep] + b) == [a] + Explode(sep, b)
  {
    ExplodeAtSeparator(sep, a, b);
    ExplodeWithoutSeparator(sep, a);
  }

  lemma {:induction false} ImplodeCons(sep: char, x: string, parts: seq<string>)
    requires |parts| >= 1
    ensures Implode(sep, [x] + parts) == x + [sep] + Implode(sep, parts)
  {
    assert ([x] + parts)[1..] == parts;
  }

  lemma {:induction false} ImplodeSnoc(sep: char, parts: seq<string>, x: string)
    requires |parts| >= 1
    ensures Implode(sep, parts + [x]) == Implode(sep, parts) + [sep] + x
  {
    if |parts| == 1 {
      assert parts + [x] == [parts[0]] + [x];
    } else {
      assert parts + [x] == [parts[0]] + (parts[1..] + [x]);
      ImplodeCons(sep, parts[0], parts[1..] + [x]);
      ImplodeSnoc(sep, parts[1..], x);
    }
  }

  /** Joining the pieces of `explode` with the same separator gives the string back. */
  lemma {:induction false} ImplodeExplode(sep: char, s: string)
    ensures Implode(sep, Explode(sep, s)) == s
  {
    if s != [] {
      var rest := Explode(sep, s[1..]);
      ImplodeExplode(sep, s[1..]);
      if s[0] == sep {
        ImplodeCons(sep, "", rest);
      } else if |rest| == 1 {
        assert Explode(sep, s) == [[s[0]] + rest[0]];
      } else {
        assert rest == [rest[0]] + rest[1..];
        ImplodeCons(sep, rest[0], rest[1..]);
        ImplodeCons(sep, [s[0]] + rest[0], rest[1..]);
      }
    }
  }

  /** Splitting a join of separator-free pieces gives the pieces back. */
  lemma {:induction false} ExplodeImplode(sep: char, parts: seq<string>)
    requires |parts| >= 1
    requires forall i :: 0 <= i < |parts| ==> sep !in parts[i]
    ensures Explode(sep, Implode(sep, parts)) == parts
  {
    if |parts| == 1 {
      ExplodeWithoutSeparator(sep, parts[0]);
    } else {
      ExplodeImplode(sep, parts[1..]);
      ExplodeAtSeparator(sep, parts[0], Implode(sep, parts[1..]));
      ExplodeWithoutSeparator(sep, parts[0]);
    }
  }

  /** The join of two or more pieces starts with the first two pieces around a
      separator, followed by nothing or by a separator and the rest. */
  lemma ImplodeFirstTwo(sep: char, parts: seq<string>)
    requires |parts| >= 2
    ensures |parts| == 2 ==> Implode(sep, parts) == parts[0] + [sep] + parts[1]
    ensures |parts| > 2 ==>
      Implode(sep, parts) == parts[0] + [sep] + parts[1] + ([sep] + Implode(sep, parts[2..]))
  {
    ImplodeCons(sep, parts[0], parts[1..]);
    assert parts == [parts[0]] + parts[1..];
    if |parts| > 2 {
      assert parts[1..] == [parts[1]] + parts[2..];
      ImplodeCons(sep, parts[1], parts[2..]);
    }
  }

  lemma ImplodeHasSeparator(sep: char, parts: seq<string>)
    requires |parts| >= 2
    ensures sep in Implode(sep, parts)
  {
    var s := Implode(sep, parts);
    assert s == parts[0] + [sep] + Implode(sep, parts[1..]);
    assert s[|parts[0]|] == sep;
  }

  function LowerChar(c: char): char {
    if 'A' <= c <= 'Z' then (c as int + 32) as char else c
  }

  /** `strtolower`: ASCII upper-case letters become lower-case, nothing else changes. */
  function Lower(s: string): string {
    seq(|s|, i requires 0 <= i < |s| => LowerChar(s[i]))
  }

  /** `str_starts_with(s, prefix)`. */
  predicate StartsWith(s: string, prefix: string) {
    |prefix| <= |s| && s[..|prefix|] == prefix
  }

  /** `ltrim(s, c)`: leading copies of `c` removed. */
  function TrimLeading(c: char, s: string): (r: string)
    ensures |r| <= |s| && r == s[|s| - |r|..]
    ensures r == [] || r[0] != c
    ensures forall i :: 0 <= i < |s| - |r| ==> s[i] == c
  {
    if s != [] && s[0] == c then TrimLeading(c, s[1..]) else s
  }

  /** `rtrim(s, c)`: trailing copies of `c` removed. */
  function TrimTrailing(c: char, s: string): (r: string)
    ensures |r| <= |s| && r == s[..|r|]
    ensures r == [] || r[|r| - 1] != c
    ensures forall i :: |r| <= i < |s| ==> s[i] == c
  {
    if s != [] && s[|s| - 1] == c then TrimTrailing(c, s[..|s| - 1]) else s
  }

  /** `r` is a slice of `s` with only copies of `c` before and after it. */
  predicate IsTrimOf(c: char, s: string, r: string) {
    exists i, j :: (&& 0 <= i <= j <= |s| && r == s[i..j]
                    && (forall k :: 0 <= k < i ==> s[k] == c)
                    && (forall k :: j <= k < |s| ==> s[k] == c))
  }

  /** `trim(s, c)`: the middle part of `s` that neither starts nor ends with
      `c`; only copies of `c` around it are removed. */
  function Trim(c: char, s: string): (r: string)
    ensures r == [] || (r[0] != c && r[|r| - 1] != c)
    ensures IsTrimOf(c, s, r)
  {
    TrimIsSlice(c, s);
    TrimTrailing(c, TrimLeading(c, s))
  }

  lemma TrimIsSlice(c: char, s: string)
    ensures IsTrimOf(c, s, TrimTrailing(c, TrimLeading(c, s)))
  {
    var lead := TrimLeading(c, s);
    var i := |s| - |lead|;
    assert lead == s[i..];
    assert forall k :: 0 <= k < i ==> s[k] == c;
    var r := TrimTrailing(c, lead);
    var j := i + |r|;
    assert r == lead[..|r|];
    assert r == s[i..j];
    forall k | j <= k < |s| ensures s[k] == c {
      assert lead[k - i] == c;
    }
    assert IsTrimOf(c, s, r);
  }

  /** A string that neither starts nor ends with `c`, wrapped in one `c` on
      each side, trims back to itself. */
  lemma TrimSurrounded(c: char, s: string)
    requires s == [] || (s[0] != c && s[|s| - 1] != c)
    ensures Trim(c, [c] + s + [c]) == s
  {
    assert ([c] + s + [c])[1..] == s + [c];
    if s == [] {
      assert TrimLeading(c, [c]) == [];
    } else {
      assert TrimLeading(c, s + [c]) == s + [c];
      assert (s + [c])[..|s|] == s;
    }
  }

  /** Trimming a string that neither starts nor ends with `c` leaves it as it is,
      so trimming twice is trimming once. */
  lemma TrimKeepsTrimmed(c: char, s: string)
    requires s == [] || (s[0] != c && s[|s| - 1] != c)
    ensures Trim(c, s) == s
  {
  }

  lemma TrimIdempotent(c: char, s: string)
    ensures Trim(c, Trim(c, s)) == Trim(c, s)
  {
    TrimKeepsTrimmed(c, Trim(c, s));
  }

  /** `basename(path)`: the last `/`-separated component once trailing slashes are dropped. */
  function Basename(path: string): (r: string)
    ensures '/' !in r
  {
    var parts := Explode('/', TrimTrailing('/', path));
    parts[|parts| - 1]
  }
}
