/**
 * The string operations of Rust's `str` that the normaliser relies on:
 * `starts_with`, `split` with a string pattern, `collect::<String>()` of the
 * pieces, and `lines`. A string is a sequence of Unicode scalar values.
 */
module Text {
  import opened Wrappers

  predicate StartsWith(s: string, prefix: string) {
    |prefix| <= |s| && s[..|prefix|] == prefix
  }

  /** `p` occurs in `s` starting at index `i`. */
  predicate OccursAt(s: string, p: string, i: nat) {
    i + |p| <= |s| && s[i..i + |p|] == p
  }

  predicate Contains(s: string, p: string) {
    exists i: nat :: i <= |s| && OccursAt(s, p, i)
  }

  /**
   * No proper prefix of `p` is also a suffix of `p`. For such a pattern two
   * occurrences can never overlap, so "the first occurrence" is unaffected by
   * what follows it.
   */
  predicate Unbordered(p: string) {
    forall k :: 0 < k < |p| ==> p[..k] != p[|p| - k..]
  }

  /** A pattern whose first character does not recur in it has no border. */
  lemma UnborderedByFirst(p: string)
    requires forall k :: 0 < k < |p| ==> p[k] != p[0]
    ensures Unbordered(p)
  {
    forall k | 0 < k < |p| ensures p[..k] != p[|p| - k..] {
      assert p[..k][0] != p[|p| - k..][0];
    }
  }

  /** A pattern whose first character never appears in `s` does not occur in `s`. */
  lemma FirstCharAbsent(s: string, p: string)
    requires |p| > 0 && forall k :: 0 <= k < |s| ==> s[k] != p[0]
    ensures !Contains(s, p)
  {
    forall i: nat ensures !OccursAt(s, p, i) {
      if i + |p| <= |s| {
        assert s[i..i + |p|][0] == s[i];
      }
    }
  }

  lemma OccursAtShift(s: string, p: string, k: nat)
    requires |s| > 0
    ensures OccursAt(s[1..], p, k) <==> OccursAt(s, p, k + 1)
  {
    if k + |p| <= |s[1..]| {
      assert s[1..][k..k + |p|] == s[k + 1..k + 1 + |p|];
    }
  }

  /** The index of the leftmost occurrence of `p` in `s`, as `str::find` gives it. */
  function IndexOf(s: string, p: string): (r: Option<nat>)
    requires |p| > 0
    ensures r.Some? ==> OccursAt(s, p, r.value)
    ensures r.Some? ==> forall j: nat :: j < r.value ==> !OccursAt(s, p, j)
    ensures r.None? <==> !Contains(s, p)
    decreases |s|
  {
    if |s| < |p| then None
    else if s[..|p|] == p then Some(0)
    else
      var rest := IndexOf(s[1..], p);
      assert !OccursAt(s, p, 0);
      assert forall j: nat :: OccursAt(s[1..], p, j) <==> OccursAt(s, p, j + 1) by {
        forall j: nat ensures OccursAt(s[1..], p, j) <==> OccursAt(s, p, j + 1) {
          OccursAtShift(s, p, j);
        }
      }
      match rest
      case None =>
        assert forall j: nat :: !OccursAt(s, p, j) by {
          forall j: nat ensures !OccursAt(s, p, j) {
            if j > 0 { assert !OccursAt(s[1..], p, j - 1); }
          }
        }
        None
      case Some(k) =>
        assert forall j: nat :: j < k + 1 ==> !OccursAt(s, p, j) by {
          forall j: nat | j < k + 1 ensures !OccursAt(s, p, j) {
            if j > 0 { assert !OccursAt(s[1..], p, j - 1); }
          }
        }
        Some(k + 1)
  }

  /** `parts` joined with `sep` between neighbours; `Join(parts, "")` is `collect::<String>()`. */
  function Join(parts: seq<string>, sep: string): string {
    if |parts| == 0 then ""
    else if |parts| == 1 then parts[0]
    else parts[0] + sep + Join(parts[1..], sep)
  }

  lemma OccursInPrefix(s: string, p: string, i: nat, j: nat)
    requires i <= |s|
    requires OccursAt(s[..i], p, j)
    ensures OccursAt(s, p, j)
  {
    assert s[..i][j..j + |p|] == s[j..j + |p|];
  }

  /**
   * `str::split` with a non-empty string pattern: the pieces between the
   * leftmost non-overlapping occurrences of `sep`, scanned from the left.
   * The contract pins the pieces down only when `Unbordered(sep)` holds
   * (for "aa" in "aaa" it also admits ["a", ""], while the scan gives
   * ["", "a"]); every separator of the program is unbordered.
   */
  function Split(s: string, sep: string): (parts: seq<string>)
    requires |sep| > 0
    ensures |parts| >= 1
    ensures Join(parts, sep) == s
    ensures forall k :: 0 <= k < |parts| ==> !Contains(parts[k], sep)
    decreases |s|
  {
    match IndexOf(s, sep)
    case None => [s]
    case Some(i) =>
      var head, tail := s[..i], Split(s[i + |sep|..], sep);
      assert !Contains(head, sep) by {
        forall j: nat ensures !OccursAt(head, sep, j) {
          if OccursAt(head, sep, j) {
            OccursInPrefix(s, sep, i, j);
            assert false;
          }
        }
      }
      assert s == head + sep + s[i + |sep|..] by {
        assert s[i..i + |sep|] == sep;
      }
      [head] + tail
  }

  /** Every occurrence of `pat` deleted in one left-to-right pass: `s.split(pat).collect::<String>()`. */
  function RemoveAll(s: string, pat: string): string
    requires |pat| > 0
  {
    Join(Split(s, pat), "")
  }

  /**
   * When `a` does not contain an unbordered separator, the first occurrence
   * of the separator in `a + sep + t` is the one right after `a`.
   */
  lemma {:induction false} FirstOccurrenceAfter(a: string, sep: string, t: string)
    requires |sep| > 0 && Unbordered(sep) && !Contains(a, sep)
    ensures IndexOf(a + sep + t, sep) == Some(|a|)
  {
    var s := a + sep + t;
    assert s[|a|..|a| + |sep|] == sep;
    assert OccursAt(s, sep, |a|);
    forall j: nat | j < |a| ensures !OccursAt(s, sep, j) {
      if OccursAt(s, sep, j) {
        if j + |sep| <= |a| {
          assert a[j..j + |sep|] == s[j..j + |sep|];
          assert OccursAt(a, sep, j);
          assert false;
        } else {
          // the occurrence would straddle `a` and `sep`, so a proper prefix
          // of `sep` would equal a suffix of it
          var m := j + |sep| - |a|;
          forall x | 0 <= x < m ensures sep[..m][x] == sep[|sep| - m..][x] {
            assert s[j..j + |sep|][|sep| - m + x] == s[|a| + x];
          }
          assert false;
        }
      }
    }
  }

  /** Splitting at the first separator peels off exactly the part before it. */
  lemma {:induction false} SplitAfterFirst(a: string, sep: string, t: string)
    requires |sep| > 0 && Unbordered(sep) && !Contains(a, sep)
    ensures Split(a + sep + t, sep) == [a] + Split(t, sep)
  {
    FirstOccurrenceAfter(a, sep, t);
    var s := a + sep + t;
    assert s[..|a|] == a;
    assert s[|a| + |sep|..] == t;
  }

  /** A string without the pattern is one piece. */
  lemma SplitWithout(s: string, sep: string)
    requires |sep| > 0 && !Contains(s, sep)
    ensures Split(s, sep) == [s]
  {
  }

  /** Deletion works anywhere in the string: the first occurrence goes, then the rest is processed. */
  lemma {:induction false} RemoveAllCuts(a: string, pat: string, t: string)
    requires |pat| > 0 && Unbordered(pat) && !Contains(a, pat)
    ensures RemoveAll(a + pat + t, pat) == a + RemoveAll(t, pat)
  {
    SplitAfterFirst(a, pat, t);
    var rest := Split(t, pat);
    assert Split(a + pat + t, pat) == [a] + rest;
    if |rest| == 1 {
      assert Join([a] + rest, "") == a + "" + rest[0];
    } else {
      assert ([a] + rest)[1..] == rest;
    }
  }

  /** A trailing occurrence of the pattern is removed and nothing else changes. */
  lemma {:induction false} RemoveTrailing(a: string, pat: string)
    requires |pat| > 0 && Unbordered(pat) && !Contains(a, pat)
    ensures RemoveAll(a + pat, pat) == a
  {
    RemoveAllCuts(a, pat, "");
    assert a + pat + "" == a + pat;
    assert !Contains("", pat);
    SplitWithout("", pat);
  }

  /** A string without the pattern is left unchanged. */
  lemma {:induction false} RemoveAbsent(s: string, pat: string)
    requires |pat| > 0 && !Contains(s, pat)
    ensures RemoveAll(s, pat) == s
  {
    SplitWithout(s, pat);
  }

  /**
   * `str::lines`: split at "\n", drop a carriage return that ends a line
   * which a "\n" terminated, and drop the empty piece after a final "\n"
   * (so "" has no lines at all).
   */
  function Lines(text: string): (lines: seq<string>)
    ensures forall k :: 0 <= k < |lines| ==> !Contains(lines[k], "\n")
    ensures lines == [] <==> text == ""
  {
    var parts := Split(text, "\n");
    var terminated := seq(|parts| - 1, k requires 0 <= k < |parts| - 1 => DropCarriageReturn(parts[k]));
    var last := parts[|parts| - 1];
    assert forall k :: 0 <= k < |terminated| ==> !Contains(terminated[k], "\n") by {
      forall k | 0 <= k < |terminated| ensures !Contains(terminated[k], "\n") {
        DropCarriageReturnKeeps(parts[k]);
      }
    }
    if last == "" then terminated else terminated + [last]
  }

  function DropCarriageReturn(line: string): string {
    if |line| > 0 && line[|line| - 1] == '\r' then line[..|line| - 1] else line
  }

  lemma DropCarriageReturnKeeps(line: string)
    requires !Contains(line, "\n")
    ensures !Contains(DropCarriageReturn(line), "\n")
  {
    var d := DropCarriageReturn(line);
    forall j: nat | OccursAt(d, "\n", j) ensures false {
      OccursInPrefix(line, "\n", |d|, j);
    }
  }

  /** The file "w1\nw2\n...wn\n" splits at "\n" into the words and one empty piece after the final newline. */
  lemma {:induction false} SplitTerminated(ws: seq<string>)
    requires |ws| >= 1
    requires forall k :: 0 <= k < |ws| ==> !Contains(ws[k], "\n")
    ensures Split(Join(ws, "\n") + "\n", "\n") == ws + [""]
  {
    UnborderedByFirst("\n");
    if |ws| == 1 {
      assert Join(ws, "\n") + "\n" == ws[0] + "\n" + "";
      SplitAfterFirst(ws[0], "\n", "");
      SplitWithout("", "\n");
    } else {
      var rest := ws[1..];
      assert Join(ws, "\n") + "\n" == ws[0] + "\n" + (Join(rest, "\n") + "\n");
      SplitAfterFirst(ws[0], "\n", Join(rest, "\n") + "\n");
      SplitTerminated(rest);
      assert ws == [ws[0]] + rest;
    }
  }

  /**
   * A file that lists one entry per line, each line ended by "\n", has
   * exactly those entries as its lines, provided no entry ends in a
   * carriage return.
   */
  lemma {:induction false} LinesOfTerminated(ws: seq<string>)
    requires |ws| >= 1
    requires forall k :: 0 <= k < |ws| ==> !Contains(ws[k], "\n")
    requires forall k :: 0 <= k < |ws| ==> |ws[k]| == 0 || ws[k][|ws[k]| - 1] != '\r'
    ensures Lines(Join(ws, "\n") + "\n") == ws
  {
    SplitTerminated(ws);
    var parts := Split(Join(ws, "\n") + "\n", "\n");
    assert parts[..|parts| - 1] == ws;
  }

  /** For an unbordered separator, splitting undoes joining pieces that do not contain it. */
  lemma {:induction false} SplitJoin(ws: seq<string>, sep: string)
    requires |ws| >= 1 && |sep| > 0 && Unbordered(sep)
    requires forall k :: 0 <= k < |ws| ==> !Contains(ws[k], sep)
    ensures Split(Join(ws, sep), sep) == ws
  {
    if |ws| == 1 {
      SplitWithout(ws[0], sep);
    } else {
      var rest := ws[1..];
      assert Join(ws, sep) == ws[0] + sep + Join(rest, sep);
      SplitAfterFirst(ws[0], sep, Join(rest, sep));
      SplitJoin(rest, sep);
      assert ws == [ws[0]] + rest;
    }
  }

  /**
   * A file without a final line ending: its lines are the entries, as long
   * as the last entry is not empty and no earlier entry ends in a carriage
   * return (a carriage return at the very end stays, as no "\n" follows it).
   */
  lemma {:induction false} LinesOfUnterminated(ws: seq<string>)
    requires |ws| >= 1 && ws[|ws| - 1] != ""
    requires forall k :: 0 <= k < |ws| ==> !Contains(ws[k], "\n")
    requires forall k :: 0 <= k < |ws| - 1 ==> |ws[k]| == 0 || ws[k][|ws[k]| - 1] != '\r'
    ensures Lines(Join(ws, "\n")) == ws
  {
    UnborderedByFirst("\n");
    SplitJoin(ws, "\n");
    assert ws == ws[..|ws| - 1] + [ws[|ws| - 1]];
  }

  lemma CarriageReturnKeeps(w: string)
    requires !Contains(w, "\n")
    ensures !Contains(w + "\r", "\n")
  {
    forall j: nat ensures !OccursAt(w + "\r", "\n", j) {
      if j < |w| {
        assert (w + "\r")[j..j + 1] == w[j..j + 1];
        assert !OccursAt(w, "\n", j);
      } else if j == |w| {
        assert (w + "\r")[j..j + 1] == "\r";
      }
    }
  }

  function AppendCarriageReturn(ws: seq<string>): (rs: seq<string>)
    ensures |rs| == |ws| && forall k :: 0 <= k < |ws| ==> rs[k] == ws[k] + "\r"
  {
    if ws == [] then [] else [ws[0] + "\r"] + AppendCarriageReturn(ws[1..])
  }

  /** Lines ended by "\r\n" are lines ended by "\n" whose entries end in a carriage return. */
  lemma {:induction false} JoinCrlf(ws: seq<string>)
    requires |ws| >= 1
    ensures Join(ws, "\r\n") + "\r\n" == Join(AppendCarriageReturn(ws), "\n") + "\n"
  {
    var rs := AppendCarriageReturn(ws);
    if |ws| > 1 {
      JoinCrlf(ws[1..]);
      assert rs[1..] == AppendCarriageReturn(ws[1..]);
      assert Join(ws, "\r\n") + "\r\n" == ws[0] + "\r\n" + (Join(ws[1..], "\r\n") + "\r\n");
    }
  }

  /**
   * A file whose every line is ended by "\r\n" (the Windows convention):
   * its lines are exactly the entries, in order.
   */
  lemma {:induction false} LinesOfCrlf(ws: seq<string>)
    requires |ws| >= 1
    requires forall k :: 0 <= k < |ws| ==> !Contains(ws[k], "\n")
    ensures Lines(Join(ws, "\r\n") + "\r\n") == ws
  {
    var rs := AppendCarriageReturn(ws);
    JoinCrlf(ws);
    forall k | 0 <= k < |rs| ensures !Contains(rs[k], "\n") {
      CarriageReturnKeeps(ws[k]);
    }
    SplitTerminated(rs);
    var parts := Split(Join(rs, "\n") + "\n", "\n");
    forall k | 0 <= k < |ws| ensures DropCarriageReturn(parts[k]) == ws[k] {
      assert parts[k] == ws[k] + "\r";
      assert (ws[k] + "\r")[..|ws[k]|] == ws[k];
    }
  }
}
