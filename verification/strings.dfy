/** The string operations the application applies to file names and MIME
    types, with JavaScript semantics: `split` on a one-character separator,
    `indexOf`/`replace` with a string pattern (first occurrence only), and a
    reader for quote-delimited markup templates. */
module Strings {
  import opened Wrappers

  /** JavaScript `s.split(c)`: the maximal separator-free pieces of `s`, in
      order. There is always at least one piece; `""` splits to `[""]`. */
  function Split(s: string, c: char): (parts: seq<string>)
    ensures |parts| >= 1
    ensures forall i :: 0 <= i < |parts| ==> c !in parts[i]
    ensures |parts| == 1 <==> c !in s
    decreases |s|
  {
    if |s| == 0 then [""]
    else
      var rest := Split(s[1..], c);
      if s[0] == c then [""] + rest
      else [[s[0]] + rest[0]] + rest[1..]
  }

  /** JavaScript `parts.join(c)`. */
  function Join(parts: seq<string>, c: char): string
    requires |parts| >= 1
    decreases |parts|
  {
    if |parts| == 1 then parts[0] else parts[0] + [c] + Join(parts[1..], c)
  }

  /** Splitting after a separator-free first piece peels that piece off. */
  lemma {:induction false} SplitAfterPiece(a: string, c: char, t: string)
    requires c !in a
    ensures Split(a + [c] + t, c) == [a] + Split(t, c)
    decreases |a|
  {
    var s := a + [c] + t;
    if |a| == 0 {
      assert s[1..] == t;
    } else {
      assert s[1..] == a[1..] + [c] + t;
      SplitAfterPiece(a[1..], c, t);
      assert [a[0]] + a[1..] == a;
    }
  }

  /** A separator-free string is a single piece. */
  lemma {:induction false} SplitNoSeparator(a: string, c: char)
    requires c !in a
    ensures Split(a, c) == [a]
    decreases |a|
  {
    if |a| > 0 {
      SplitNoSeparator(a[1..], c);
      assert [a[0]] + a[1..] == a;
    }
  }

  /** Splitting undoes joining separator-free pieces. */
  lemma {:induction false} SplitJoin(parts: seq<string>, c: char)
    requires |parts| >= 1
    requires forall i :: 0 <= i < |parts| ==> c !in parts[i]
    ensures Split(Join(parts, c), c) == parts
    decreases |parts|
  {
    if |parts| == 1 {
      SplitNoSeparator(parts[0], c);
    } else {
      SplitJoin(parts[1..], c);
      SplitAfterPiece(parts[0], c, Join(parts[1..], c));
      assert parts == [parts[0]] + parts[1..];
    }
  }

  /** Joining undoes splitting: no character is lost or added. */
  lemma {:induction false} JoinSplit(s: string, c: char)
    ensures Join(Split(s, c), c) == s
    decreases |s|
  {
    if |s| > 0 {
      JoinSplit(s[1..], c);
      var rest := Split(s[1..], c);
      if s[0] == c {
        assert Join([""] + rest, c) == [c] + Join(rest, c) by {
          assert ([""] + rest)[1..] == rest;
        }
        assert s == [s[0]] + s[1..];
      } else {
        var parts := Split(s, c);
        assert parts == [[s[0]] + rest[0]] + rest[1..];
        if |rest| == 1 {
          assert Join(parts, c) == [s[0]] + rest[0];
        } else {
          assert parts[1..] == rest[1..];
          assert Join(parts, c) == [s[0]] + (rest[0] + [c] + Join(rest[1..], c));
        }
        assert s == [s[0]] + s[1..];
      }
    }
  }

  /** `s.split(c)[0]`: the text before the first `c`, or all of `s`. */
  function Before(s: string, c: char): string {
    Split(s, c)[0]
  }

  /** `Before(s, c)` is the longest `c`-free prefix of `s`: it is a prefix,
      contains no `c`, and is followed by `c` unless it is all of `s`. */
  lemma BeforeIsFirstPiece(s: string, c: char)
    ensures var b := Before(s, c);
      && |b| <= |s| && s[..|b|] == b && c !in b
      && (|b| < |s| ==> s[|b|] == c)
      && (|b| == |s| <==> c !in s)
  {
    JoinSplit(s, c);
    var parts := Split(s, c);
    if |parts| > 1 {
      assert s == parts[0] + [c] + Join(parts[1..], c);
    }
  }

  /** The text before the first `c` of `a + t`, when `a` is `c`-free and `t`
      starts with `c`, is `a`. */
  lemma BeforeAppend(a: string, c: char, t: string)
    requires c !in a
    requires |t| > 0 && t[0] == c
    ensures Before(a + t, c) == a
  {
    assert a + t == a + [c] + t[1..];
    SplitAfterPiece(a, c, t[1..]);
  }

  /** `pat` occurs in `s` at position `k`. */
  predicate OccursAt(s: string, pat: string, k: nat) {
    k + |pat| <= |s| && s[k..k + |pat|] == pat
  }

  /** JavaScript `s.indexOf(pat)`: the first position at which `pat` occurs. */
  function IndexOf(s: string, pat: string): (r: Option<nat>)
    ensures r.Some? ==> OccursAt(s, pat, r.value)
    ensures r.Some? ==> forall k: nat :: k < r.value ==> !OccursAt(s, pat, k)
    ensures r.None? ==> forall k: nat :: !OccursAt(s, pat, k)
    decreases |s|
  {
    if |s| < |pat| then None
    else if s[..|pat|] == pat then Some(0)
    else
      match IndexOf(s[1..], pat)
      case None =>
        assert forall k: nat :: 0 < k ==> OccursAt(s, pat, k) == OccursAt(s[1..], pat, k - 1);
        None
      case Some(k) =>
        assert forall j: nat :: 0 < j ==> OccursAt(s, pat, j) == OccursAt(s[1..], pat, j - 1);
        Some(k + 1)
  }

  /** First-occurrence replacement with `rep` inserted literally: only the
      first occurrence of `pat` is replaced; without one, `s` is returned
      unchanged. This is JavaScript `s.replace(pat, rep)` with a string
      pattern for replacements without `$`, which JavaScript would expand. */
  function ReplaceFirst(s: string, pat: string, rep: string): (r: string)
    ensures (forall k: nat :: !OccursAt(s, pat, k)) ==> r == s
    // the first occurrence, and only it, is replaced
    ensures forall k: nat :: OccursAt(s, pat, k) && (forall j: nat :: j < k ==> !OccursAt(s, pat, j)) ==>
      r == s[..k] + rep + s[k + |pat|..]
  {
    match IndexOf(s, pat)
    case None => s
    case Some(k) => s[..k] + rep + s[k + |pat|..]
  }

  /** A pattern holding a character the text lacks does not occur in it. */
  lemma NoOccurrenceWithoutChar(s: string, pat: string, c: char)
    requires c in pat && c !in s
    ensures IndexOf(s, pat).None?
  {
  }

  /** Replacing a pattern that equals the whole string yields the replacement. */
  lemma ReplaceWhole(s: string, rep: string)
    ensures ReplaceFirst(s, s, rep) == rep
  {
    assert s[..|s|] == s;
  }

  /** ASCII lower-casing (JavaScript `toLowerCase` on ASCII text). */
  function LowerChar(ch: char): char {
    if 'A' <= ch <= 'Z' then (ch as int + 32) as char else ch
  }

  function Lowercase(s: string): (r: string)
    ensures |r| == |s|
  {
    seq(|s|, i requires 0 <= i < |s| => LowerChar(s[i]))
  }

  /** A template of literal pieces with one hole between each neighbouring
      pair, filled with `holes` (a JavaScript template literal). */
  function Fill(lits: seq<string>, holes: seq<string>): string
    requires |lits| == |holes| + 1
    decreases |holes|
  {
    if |holes| == 0 then lits[0] else lits[0] + holes[0] + Fill(lits[1..], holes[1..])
  }

  /** Reads a string produced from the template `lits` back into its holes,
      where each hole extends up to the next `q` (a markup attribute reader:
      every literal after the first opens with the closing quote). */
  function Parse(lits: seq<string>, q: char, s: string): Option<seq<string>>
    requires |lits| >= 1
    decreases |lits|
  {
    if |lits| == 1 then (if s == lits[0] then Some([]) else None)
    else if |lits[0]| <= |s| && s[..|lits[0]|] == lits[0] then
      var body := s[|lits[0]|..];
      var field := Before(body, q);
      BeforeIsFirstPiece(body, q);
      match Parse(lits[1..], q, body[|field|..])
      case None => None
      case Some(fields) => Some([field] + fields)
    else None
  }

  /** No hole contains the quote character. */
  predicate QuoteFree(holes: seq<string>, q: char) {
    forall i :: 0 <= i < |holes| ==> q !in holes[i]
  }

  /** Every literal after the first opens with the quote character. */
  predicate QuoteLed(lits: seq<string>, q: char) {
    forall i :: 1 <= i < |lits| ==> |lits[i]| > 0 && lits[i][0] == q
  }

  /** Reading a filled template recovers exactly the holes, provided no hole
      contains the quote character and every later literal starts with it. */
  lemma {:induction false} ParseFill(lits: seq<string>, q: char, holes: seq<string>)
    requires |lits| == |holes| + 1
    requires QuoteFree(holes, q)
    requires QuoteLed(lits, q)
    ensures Parse(lits, q, Fill(lits, holes)) == Some(holes)
    decreases |holes|
  {
    if |holes| > 0 {
      var lits', holes' := lits[1..], holes[1..];
      var tail := Fill(lits', holes');
      assert Fill(lits, holes) == lits[0] + (holes[0] + tail);
      assert QuoteFree(holes', q) by {
        forall i | 0 <= i < |holes'| ensures q !in holes'[i] {
          assert holes'[i] == holes[i + 1];
        }
      }
      assert QuoteLed(lits', q) by {
        forall i | 1 <= i < |lits'| ensures |lits'[i]| > 0 && lits'[i][0] == q {
          assert lits'[i] == lits[i + 1];
        }
      }
      assert lits'[0] == lits[1];
      FillStartsWith(lits', holes');
      ParseStep(lits, q, holes[0], tail);
      ParseFill(lits', q, holes');
      assert holes == [holes[0]] + holes';
    }
  }

  /** One step of `Parse`: after the first literal, the hole runs up to the
      next quote and the rest is read against the remaining literals. */
  lemma ParseStep(lits: seq<string>, q: char, hole: string, tail: string)
    requires |lits| >= 2
    requires q !in hole
    requires |tail| > 0 && tail[0] == q
    ensures Parse(lits, q, lits[0] + (hole + tail)) ==
      match Parse(lits[1..], q, tail)
      case None => None
      case Some(fields) => Some([hole] + fields)
  {
    var s := lits[0] + (hole + tail);
    assert s[..|lits[0]|] == lits[0];
    var body := s[|lits[0]|..];
    assert body == hole + tail;
    BeforeAppend(hole, q, tail);
    assert body[|hole|..] == tail;
  }

  /** A filled template starts with its first literal. */
  lemma FillStartsWith(lits: seq<string>, holes: seq<string>)
    requires |lits| == |holes| + 1
    ensures |Fill(lits, holes)| >= |lits[0]|
    ensures Fill(lits, holes)[..|lits[0]|] == lits[0]
  {
    if |holes| > 0 {
      var s := Fill(lits, holes);
      assert s == lits[0] + (holes[0] + Fill(lits[1..], holes[1..]));
    }
  }
}
