/**
 * The PHP string built-ins the logon module relies on, written out over
 * `seq<char>`: `trim`/`rtrim` with PHP's default character list, `strpos`
 * for a single character, `explode` with a positive limit, the null padding
 * of `list(...) = explode(...)`, and `substr($s, 0, $n)`.
 */
module PhpString {
  import opened Wrappers

  /** PHP's default character list for trim/rtrim/ltrim: " \t\n\r\0\x0B". */
  predicate IsPhpSpace(c: char) {
    c == ' ' || c == '\t' || c == '\n' || c == '\r' || c == '\0' || c == '\U{B}'
  }

  /** Every character of `s` is in PHP's default trim list. */
  predicate AllSpace(s: string) {
    forall i :: 0 <= i < |s| ==> IsPhpSpace(s[i])
  }

  /** `rtrim($s)`: `s` without its trailing whitespace. */
  function RTrim(s: string): (r: string)
    ensures r <= s
    ensures AllSpace(s[|r|..])
    ensures r == [] || !IsPhpSpace(r[|r| - 1])
    decreases |s|
  {
    if |s| > 0 && IsPhpSpace(s[|s| - 1]) then RTrim(s[..|s| - 1]) else s
  }

  /** `ltrim($s)`: `s` without its leading whitespace. */
  function LTrim(s: string): (r: string)
    ensures |r| <= |s| && r == s[|s| - |r|..]
    ensures AllSpace(s[..|s| - |r|])
    ensures r == [] || !IsPhpSpace(r[0])
    decreases |s|
  {
    if |s| > 0 && IsPhpSpace(s[0]) then LTrim(s[1..]) else s
  }

  /**
   * `trim($s)`: `s` without whitespace at either end. The result is a run of
   * `s` with no whitespace at its ends; `TrimOfPaddedText` shows it is the
   * run between the leading and the trailing whitespace.
   */
  function Trim(s: string): (r: string)
    ensures |r| <= |s|
    ensures r == [] || (!IsPhpSpace(r[0]) && !IsPhpSpace(r[|r| - 1]))
  {
    var right := RTrim(s);
    var r := LTrim(right);
    assert r != [] ==> r[|r| - 1] == right[|right| - 1];
    r
  }

  /** `strpos($s, $c)` for a one-character needle: the first position of `c`, if any. */
  function IndexOf(s: string, c: char): (r: Option<nat>)
    ensures r.None? <==> c !in s
    ensures r.Some? ==> r.value < |s| && s[r.value] == c && c !in s[..r.value]
  {
    if |s| == 0 then None
    else if s[0] == c then Some(0)
    else match IndexOf(s[1..], c)
      case None => None
      case Some(k) => Some(k + 1)
  }

  /** `implode($sep, $parts)`: the pieces glued back together with `sep` between them. */
  function Join(sep: char, parts: seq<string>): string
  {
    if |parts| == 0 then ""
    else if |parts| == 1 then parts[0]
    else parts[0] + [sep] + Join(sep, parts[1..])
  }

  /**
   * `explode($sep, $s, $limit)` for a positive limit: `s` split at the first
   * `limit - 1` occurrences of `sep`; the last piece keeps every later `sep`.
   */
  function Explode(sep: char, s: string, limit: nat): (r: seq<string>)
    requires limit >= 1
    ensures 1 <= |r| <= limit
    ensures Join(sep, r) == s
    ensures forall i :: 0 <= i < |r| - 1 ==> sep !in r[i]
    ensures |r| < limit ==> sep !in r[|r| - 1]
    decreases limit
  {
    match IndexOf(s, sep)
    case None => [s]
    case Some(k) =>
      if limit == 1 then [s]
      else
        var rest := Explode(sep, s[k + 1..], limit - 1);
        ExplodeCons(sep, s, k, rest);
        [s[..k]] + rest
  }

  /** Putting the piece before the first separator in front of the pieces after it. */
  lemma ExplodeCons(sep: char, s: string, k: nat, rest: seq<string>)
    requires k < |s| && s[k] == sep && sep !in s[..k]
    requires |rest| >= 1 && Join(sep, rest) == s[k + 1..]
    requires forall i :: 0 <= i < |rest| - 1 ==> sep !in rest[i]
    ensures var r := [s[..k]] + rest;
            && Join(sep, r) == s
            && (forall i :: 0 <= i < |r| - 1 ==> sep !in r[i])
            && r[|r| - 1] == rest[|rest| - 1]
  {
    var r := [s[..k]] + rest;
    assert r[0] == s[..k] && r[1..] == rest;
    assert Join(sep, r) == s[..k] + [sep] + Join(sep, rest);
    assert s == s[..k] + [sep] + s[k + 1..];
    assert forall i :: 1 <= i < |r| ==> r[i] == rest[i - 1];
  }

  /**
   * Element `i` of an array filled by `list(...) = ...`: a missing element is
   * `null`, which string concatenation and comparison treat as "".
   */
  function Piece(parts: seq<string>, i: nat): string {
    if i < |parts| then parts[i] else ""
  }

  /** `substr($s, 0, $n)`: at most the first `n` characters of `s`. */
  function Head(s: string, n: nat): (r: string)
    ensures r <= s
    ensures |r| == if |s| < n then |s| else n
  {
    if |s| < n then s else s[..n]
  }

  /** `IndexOf` finds the separator right after a piece that does not contain it. */
  lemma IndexOfAfterPiece(a: string, c: char, b: string)
    requires c !in a
    ensures IndexOf(a + [c] + b, c) == Some(|a|)
  {
    var s := a + [c] + b;
    assert s[|a|] == c;
    assert s[..|a|] == a;
  }

  /** One step of `explode`: the piece before the first separator, then the rest exploded. */
  lemma ExplodeStep(sep: char, s: string, limit: nat, k: nat)
    requires limit > 1
    requires IndexOf(s, sep) == Some(k)
    ensures Explode(sep, s, limit) == [s[..k]] + Explode(sep, s[k + 1..], limit - 1)
  {
  }

  /**
   * `explode` undoes `implode`: gluing pieces whose every piece but the last is
   * free of `sep`, and exploding with a limit equal to the number of pieces,
   * gives the pieces back.
   */
  lemma {:induction false} ExplodeOfJoin(sep: char, parts: seq<string>)
    requires |parts| >= 1
    requires forall i :: 0 <= i < |parts| - 1 ==> sep !in parts[i]
    ensures Explode(sep, Join(sep, parts), |parts|) == parts
    decreases |parts|
  {
    if |parts| > 1 {
      var rest := parts[1..];
      ExplodeOfJoinStep(sep, parts);
      assert forall i :: 0 <= i < |rest| - 1 ==> rest[i] == parts[i + 1];
      ExplodeOfJoin(sep, rest);
      assert parts == [parts[0]] + rest;
    }
  }

  /** Exploding glued pieces cuts off the first piece at the first separator. */
  lemma ExplodeOfJoinStep(sep: char, parts: seq<string>)
    requires |parts| > 1 && sep !in parts[0]
    ensures Explode(sep, Join(sep, parts), |parts|) == [parts[0]] + Explode(sep, Join(sep, parts[1..]), |parts| - 1)
  {
    var tail := Join(sep, parts[1..]);
    var s := Join(sep, parts);
    assert s == parts[0] + [sep] + tail;
    IndexOfAfterPiece(parts[0], sep, tail);
    var k := |parts[0]|;
    assert s[..k] == parts[0];
    assert s[k + 1..] == tail;
    ExplodeStep(sep, s, |parts|, k);
  }

  /**
   * `rtrim` is determined by its result's properties: the text before an
   * all-whitespace tail, when that text does not itself end in whitespace.
   */
  lemma {:induction false} RTrimOfPaddedText(t: string, w: string)
    requires AllSpace(w)
    requires t == [] || !IsPhpSpace(t[|t| - 1])
    ensures RTrim(t + w) == t
    decreases |w|
  {
    if |w| == 0 {
      assert t + w == t;
    } else {
      assert (t + w)[..|t + w| - 1] == t + w[..|w| - 1];
      assert IsPhpSpace(w[|w| - 1]);
      RTrimOfPaddedText(t, w[..|w| - 1]);
    }
  }

  /** `ltrim` is determined likewise: the text after an all-whitespace head, when that text does not start with whitespace. */
  lemma {:induction false} LTrimOfPaddedText(w: string, t: string)
    requires AllSpace(w)
    requires t == [] || !IsPhpSpace(t[0])
    ensures LTrim(w + t) == t
    decreases |w|
  {
    if |w| == 0 {
      assert w + t == t;
    } else {
      assert (w + t)[1..] == w[1..] + t;
      assert IsPhpSpace(w[0]);
      LTrimOfPaddedText(w[1..], t);
    }
  }

  /** `trim` gives back text padded with whitespace on both sides, when the text has none at its ends. */
  lemma TrimOfPaddedText(w1: string, t: string, w2: string)
    requires AllSpace(w1) && AllSpace(w2)
    requires t == [] || (!IsPhpSpace(t[0]) && !IsPhpSpace(t[|t| - 1]))
    ensures Trim(w1 + t + w2) == t
  {
    if t == [] {
      assert w1 + t + w2 == [] + (w1 + w2);
      assert AllSpace(w1 + w2);
      RTrimOfPaddedText([], w1 + w2);
      assert RTrim(w1 + t + w2) == [];
    } else {
      var wt := w1 + t;
      assert wt[|wt| - 1] == t[|t| - 1];
      RTrimOfPaddedText(wt, w2);
      LTrimOfPaddedText(w1, t);
    }
  }
}
