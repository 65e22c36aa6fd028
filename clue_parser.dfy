/** Splitting a decoded clue string "<number>. <text>" into its number and
    its body, with the semantics of JavaScript's `indexOf` and `substr`. */
module ClueParser {
  import opened Surface

  /** The separator between a clue's number and its body. */
  const Separator: string := ". "

  /** `pat` occurs in `s` starting at index `k`. */
  predicate OccursAt(s: string, pat: string, k: int)
  {
    0 <= k && k + |pat| <= |s| && s[k..k + |pat|] == pat
  }

  /** `s` contains no separator anywhere. */
  predicate NoSeparator(s: string)
  {
    forall k :: 0 <= k < |s| ==> !OccursAt(s, Separator, k)
  }

  /** `indexOf(pat, from)`: the first index at or after `from` where `pat`
      occurs, or -1 when there is none. */
  function IndexFrom(s: string, pat: string, from: nat): (r: int)
    decreases |s| - from
    ensures r == -1 || (from <= r && OccursAt(s, pat, r))
    ensures forall j :: from <= j && (r == -1 || j < r) ==> !OccursAt(s, pat, j)
  {
    if from + |pat| > |s| then -1
    else if s[from..from + |pat|] == pat then from
    else IndexFrom(s, pat, from + 1)
  }

  /** `s.indexOf(pat)`. */
  function IndexOf(s: string, pat: string): (r: int)
    ensures r == -1 || OccursAt(s, pat, r)
    ensures forall j :: 0 <= j && (r == -1 || j < r) ==> !OccursAt(s, pat, j)
  {
    IndexFrom(s, pat, 0)
  }

  function Min(a: int, b: int): int { if a <= b then a else b }
  function Max(a: int, b: int): int { if a <= b then b else a }

  /** `s.substr(start, length)`, with `length` None when it is omitted:
      a negative start counts back from the end, the start is clamped to
      the string, a negative length gives the empty string, and the end is
      clamped to the string. */
  function Substr(s: string, start: int, length: Option<int>): string
  {
    var first := if start < 0 then Max(|s| + start, 0) else Min(start, |s|);
    var count := match length
      case None => |s|
      case Some(n) => Min(Max(n, 0), |s|);
    s[first..Min(first + count, |s|)]
  }

  /** `substr(0, n)` is the first `n` characters, and nothing for a negative `n`. */
  lemma SubstrPrefix(s: string, n: int)
    requires n <= |s|
    ensures Substr(s, 0, Some(n)) == if n < 0 then "" else s[..n]
  {
  }

  /** `substr(k)` drops the first `k` characters, or everything when `k` is past the end. */
  lemma SubstrSuffix(s: string, k: nat)
    ensures Substr(s, k, None) == if k <= |s| then s[k..] else ""
  {
  }

  /** A clue split into its number and its body. */
  datatype Clue = Clue(num: string, text: string)

  /** The number is everything before the first separator and the body
      everything after it. */
  function ParseClue(decoded: string): (c: Clue)
    ensures c.num <= decoded
    ensures |c.text| <= |decoded| && c.text == decoded[|decoded| - |c.text|..]
  {
    var num := Substr(decoded, 0, Some(IndexOf(decoded, Separator)));
    var text := Substr(decoded, |num| + |Separator|, None);
    Clue(num, text)
  }

  /** Parsing undoes joining a separator-free number and any body (the body
      may itself contain separators). */
  lemma {:induction false} ParseClueRoundTrip(n: string, t: string)
    requires NoSeparator(n)
    ensures ParseClue(n + Separator + t) == Clue(n, t)
  {
    var s := n + Separator + t;
    assert s[|n|..|n| + 2] == Separator;
    assert OccursAt(s, Separator, |n|);
    forall j | 0 <= j < |n|
      ensures !OccursAt(s, Separator, j)
    {
      if j + 2 <= |n| {
        assert s[j..j + 2] == n[j..j + 2];
        assert !OccursAt(n, Separator, j);
      } else {
        assert s[j + 1] == '.';
      }
    }
    var i := IndexOf(s, Separator);
    assert i == |n|;
    SubstrPrefix(s, i);
    assert s[..|n|] == n;
    SubstrSuffix(s, |n| + 2);
    assert s[|n| + 2..] == t;
  }

  /** Conversely, a clue that contains a separator is its number, the
      separator and its body, and the number contains no separator. */
  lemma ParseClueSplits(s: string)
    requires !NoSeparator(s)
    ensures var c := ParseClue(s);
      s == c.num + Separator + c.text && NoSeparator(c.num)
  {
    var i := IndexOf(s, Separator);
    var k :| OccursAt(s, Separator, k);
    assert i != -1;
    SubstrPrefix(s, i);
    SubstrSuffix(s, i + 2);
    assert s == s[..i] + s[i..i + 2] + s[i + 2..];
    forall j ensures !OccursAt(s[..i], Separator, j) {
      if OccursAt(s[..i], Separator, j) {
        assert s[j..j + 2] == s[..i][j..j + 2];
        assert OccursAt(s, Separator, j);
      }
    }
  }

  /** Without a separator the number is empty (`substr(0, -1)`) and the
      body is the clue less its first two characters. */
  lemma ParseClueWithoutSeparator(s: string)
    requires NoSeparator(s)
    ensures ParseClue(s).num == ""
    ensures ParseClue(s).text == if |s| < 2 then "" else s[2..]
  {
    assert IndexOf(s, Separator) == -1;
    SubstrPrefix(s, -1);
    SubstrSuffix(s, 2);
  }

  lemma ParseClueExample()
    ensures ParseClue("12. A sample clue") == Clue("12", "A sample clue")
  {
    assert "12"[1] != ' ';
    assert !OccursAt("12", Separator, 0);
    assert NoSeparator("12");
    ParseClueRoundTrip("12", "A sample clue");
    assert "12" + Separator + "A sample clue" == "12. A sample clue";
  }
}
