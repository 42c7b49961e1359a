/**
 * String helpers shared by the models: the parts of JavaScript's String API
 * that the scripts rely on (`lastIndexOf` with a one-character needle,
 * `split` on one character, `join`, `trim`).
 */
module Text {

  /** `s.lastIndexOf(c)`: the last position holding `c`, or -1 when there is none. */
  function LastIndexOf(s: string, c: char): (r: int)
    ensures -1 <= r < |s|
    ensures r >= 0 ==> s[r] == c
    ensures forall k :: r < k < |s| ==> s[k] != c
  {
    if s == [] then -1
    else if s[|s| - 1] == c then |s| - 1
    else LastIndexOf(s[..|s| - 1], c)
  }

  /** `parts.join(sep)`. */
  function Join(parts: seq<string>, sep: string): string
  {
    if parts == [] then ""
    else if |parts| == 1 then parts[0]
    else Join(parts[..|parts| - 1], sep) + sep + parts[|parts| - 1]
  }

  /** `s.split(c)` for a one-character separator: the pieces between occurrences of `c`. */
  function SplitOn(s: string, c: char): (parts: seq<string>)
    ensures |parts| >= 1
  {
    if s == [] then [""]
    else
      var init := SplitOn(s[..|s| - 1], c);
      if s[|s| - 1] == c then init + [""]
      else init[..|init| - 1] + [init[|init| - 1] + [s[|s| - 1]]]
  }

  /** The white-space characters removed by `trim` (ASCII white space, NBSP and BOM). */
  predicate IsSpace(ch: char)
  {
    ch == ' ' || ch == '\t' || ch == '\n' || ch == '\r' || ch == '\U{000B}' || ch == '\U{000C}'
    || ch == '\U{00A0}' || ch == '\U{FEFF}'
  }

  /** Number of leading white-space characters of `s`. */
  function LeadingSpace(s: string): (k: nat)
    ensures k <= |s|
    ensures forall i :: 0 <= i < k ==> IsSpace(s[i])
    ensures k < |s| ==> !IsSpace(s[k])
  {
    if s != [] && IsSpace(s[0]) then 1 + LeadingSpace(s[1..]) else 0
  }

  /** Length of `s` once its trailing white space is removed. */
  function TrailingCut(s: string): (k: nat)
    ensures k <= |s|
    ensures forall i :: k <= i < |s| ==> IsSpace(s[i])
    ensures k > 0 ==> !IsSpace(s[k - 1])
  {
    if s != [] && IsSpace(s[|s| - 1]) then TrailingCut(s[..|s| - 1]) else |s|
  }

  /** `s.trim()`. */
  function Trim(s: string): (r: string)
    ensures |r| <= |s|
  {
    var a := LeadingSpace(s);
    s[a..][..TrailingCut(s[a..])]
  }

  /** `trim` removes all the white space at both ends of `s`, and nothing else. */
  lemma TrimExact(s: string)
    ensures Trim(s) == [] || (!IsSpace(Trim(s)[0]) && !IsSpace(Trim(s)[|Trim(s)| - 1]))
    ensures exists i, j ::
      && 0 <= i <= j <= |s| && Trim(s) == s[i..j]
      && (forall k :: 0 <= k < i ==> IsSpace(s[k])) && (forall k :: j <= k < |s| ==> IsSpace(s[k]))
  {
    var a := LeadingSpace(s);
    var t := s[a..];
    var b := TrailingCut(t);
    assert t[..b] == s[a..a + b];
    assert forall k :: a + b <= k < |s| ==> s[k] == t[k - a];
  }

  /** `s` with every `from` character replaced by `to`. */
  function ReplaceChar(s: string, from: char, to: char): (r: string)
    ensures |r| == |s|
    ensures forall k :: 0 <= k < |s| ==> r[k] == if s[k] == from then to else s[k]
  {
    if s == [] then [] else ReplaceChar(s[..|s| - 1], from, to) + [if s[|s| - 1] == from then to else s[|s| - 1]]
  }

  /** Number of occurrences of `c` in `s`. */
  function Count(s: string, c: char): nat
  {
    if s == [] then 0 else Count(s[..|s| - 1], c) + if s[|s| - 1] == c then 1 else 0
  }

  /** Joining one more part adds the separator and the part. */
  lemma JoinSnoc(parts: seq<string>, sep: string, p: string)
    requires parts != []
    ensures Join(parts + [p], sep) == Join(parts, sep) + sep + p
  {
    assert (parts + [p])[..|parts|] == parts;
  }

  /** Growing the last part grows the joined text at its end. */
  lemma JoinGrowLast(parts: seq<string>, sep: string, x: string)
    requires parts != []
    ensures Join(parts[..|parts| - 1] + [parts[|parts| - 1] + x], sep) == Join(parts, sep) + x
  {
    var init := parts[..|parts| - 1];
    var last := parts[|parts| - 1];
    if |parts| > 1 {
      JoinSnoc(init, sep, last + x);
      JoinSnoc(init, sep, last);
      assert init + [last] == parts;
    }
  }

  /** The last step of `split`: a separator opens a new empty piece, any other character grows the last piece. */
  lemma SplitOnSnoc(s: string, c: char)
    requires s != []
    ensures var init := SplitOn(s[..|s| - 1], c);
      SplitOn(s, c) == if s[|s| - 1] == c then init + [""] else init[..|init| - 1] + [init[|init| - 1] + [s[|s| - 1]]]
  {
  }

  /** `split` and `join` are inverse: joining the pieces of `s.split(c)` with `c` gives `s` back. */
  lemma {:induction false} SplitJoin(s: string, c: char)
    ensures Join(SplitOn(s, c), [c]) == s
  {
    if s != [] {
      var n := |s| - 1;
      var init := SplitOn(s[..n], c);
      SplitJoin(s[..n], c);
      SplitOnSnoc(s, c);
      assert s[..n] + [s[n]] == s;
      if s[n] == c {
        assert SplitOn(s, c) == init + [""];
        JoinSnoc(init, [c], "");
        assert Join(SplitOn(s, c), [c]) == s[..n] + [c] + "";
      } else {
        assert SplitOn(s, c) == init[..|init| - 1] + [init[|init| - 1] + [s[n]]];
        JoinGrowLast(init, [c], [s[n]]);
        assert Join(SplitOn(s, c), [c]) == s[..n] + [s[n]];
      }
    }
  }

  /** No piece of `s.split(c)` contains `c`, and there is one piece more than there are occurrences of `c`. */
  lemma {:induction false} SplitPieces(s: string, c: char)
    ensures forall k :: 0 <= k < |SplitOn(s, c)| ==> c !in SplitOn(s, c)[k]
    ensures |SplitOn(s, c)| == Count(s, c) + 1
  {
    if s != [] {
      var n := |s| - 1;
      var init := SplitOn(s[..n], c);
      SplitPieces(s[..n], c);
      SplitOnSnoc(s, c);
      if s[n] != c {
        var parts := init[..|init| - 1] + [init[|init| - 1] + [s[n]]];
        forall k | 0 <= k < |parts|
          ensures c !in parts[k]
        {
          if k < |init| - 1 {
            assert parts[k] == init[k];
          } else {
            assert parts[k] == init[k] + [s[n]];
          }
        }
      }
    }
  }

  /** The object `obj` after `obj[key.trim()] = value` for every pair, in order. */
  function AssignTrimmed<V>(pairs: seq<(string, V)>): map<string, V>
  {
    if pairs == [] then map[]
    else
      var n := |pairs| - 1;
      AssignTrimmed(pairs[..n])[Trim(pairs[n].0) := pairs[n].1]
  }

  /** Every trimmed key is set. */
  lemma {:induction false} AssignTrimmedHasKeys<V>(pairs: seq<(string, V)>)
    ensures forall j :: 0 <= j < |pairs| ==> Trim(pairs[j].0) in AssignTrimmed(pairs)
  {
    if pairs != [] {
      var n := |pairs| - 1;
      AssignTrimmedHasKeys(pairs[..n]);
      forall j | 0 <= j < n
        ensures Trim(pairs[j].0) in AssignTrimmed(pairs)
      {
        assert pairs[..n][j] == pairs[j];
      }
    }
  }

  /** Nothing but trimmed keys is set. */
  lemma {:induction false} AssignTrimmedOnlyKeys<V>(pairs: seq<(string, V)>)
    ensures forall key :: key in AssignTrimmed(pairs) ==> exists j :: 0 <= j < |pairs| && Trim(pairs[j].0) == key
  {
    if pairs != [] {
      var n := |pairs| - 1;
      AssignTrimmedOnlyKeys(pairs[..n]);
      forall key | key in AssignTrimmed(pairs)
        ensures exists j :: 0 <= j < |pairs| && Trim(pairs[j].0) == key
      {
        if key != Trim(pairs[n].0) {
          assert key in AssignTrimmed(pairs[..n]);
          var j :| 0 <= j < n && Trim(pairs[..n][j].0) == key;
          assert pairs[..n][j] == pairs[j];
        }
      }
    }
  }

  /** A key holds the value of the last pair whose key trims to it. */
  lemma {:induction false} AssignTrimmedLastWins<V>(pairs: seq<(string, V)>, j: nat)
    requires j < |pairs|
    requires forall i :: j < i < |pairs| ==> Trim(pairs[i].0) != Trim(pairs[j].0)
    ensures Trim(pairs[j].0) in AssignTrimmed(pairs) && AssignTrimmed(pairs)[Trim(pairs[j].0)] == pairs[j].1
  {
    var n := |pairs| - 1;
    if j < n {
      assert pairs[..n][j] == pairs[j];
      forall i | j < i < n
        ensures Trim(pairs[..n][i].0) != Trim(pairs[..n][j].0)
      {
        assert pairs[..n][i] == pairs[i];
      }
      AssignTrimmedLastWins(pairs[..n], j);
    }
  }

  /** Text without the separator is one piece. */
  lemma {:induction false} SplitWhole(s: string, c: char)
    requires c !in s
    ensures SplitOn(s, c) == [s]
  {
    if s != [] {
      var n := |s| - 1;
      assert c !in s[..n] by {
        forall k | 0 <= k < n ensures s[..n][k] != c { assert s[..n][k] == s[k]; }
      }
      SplitWhole(s[..n], c);
      SplitOnSnoc(s, c);
      var init := SplitOn(s[..n], c);
      assert init[..0] == [] && init[0] == s[..n];
      assert s[..n] + [s[n]] == s;
    }
  }

  /** The step of `SplitAround` for a last character other than the separator. */
  lemma GrowLastOfConcat(a: seq<string>, b: seq<string>, ch: char)
    requires b != []
    ensures (a + b)[..|a + b| - 1] + [(a + b)[|a + b| - 1] + [ch]] == a + (b[..|b| - 1] + [b[|b| - 1] + [ch]])
  {
    assert (a + b)[..|a + b| - 1] == a + b[..|b| - 1];
  }

  /** A separator between two texts splits them apart. */
  lemma {:induction false} SplitAround(x: string, c: char, y: string)
    ensures SplitOn(x + [c] + y, c) == SplitOn(x, c) + SplitOn(y, c)
  {
    var s := x + [c] + y;
    SplitOnSnoc(s, c);
    if y == [] {
      assert s[..|s| - 1] == x;
    } else {
      var n := |y| - 1;
      assert s[..|s| - 1] == x + [c] + y[..n] && s[|s| - 1] == y[n];
      SplitAround(x, c, y[..n]);
      SplitOnSnoc(y, c);
      if y[n] != c {
        GrowLastOfConcat(SplitOn(x, c), SplitOn(y[..n], c), y[n]);
      }
    }
  }
}
