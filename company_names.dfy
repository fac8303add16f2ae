/**
 * `normalize_company_name` (mcp_server/server.py): NFKC, strip, delete
 * bracketed segments, delete whitespace, then remove one trailing legal-form
 * suffix with the anchored pattern `SUFFIX_PAT`.
 */
module CompanyNames {
  import opened Wrappers
  import opened Text

  /**
   * The strings `SUFFIX_PAT` can match before its `$`:
   * `股份有?限公司 | 有限?公司 | 公司 | Co\.?,?Ltd\.?`.
   */
  const LegalSuffixes: set<string> := {
    "股份有限公司", "股份限公司", "有限公司", "有公司", "公司",
    "Co.,Ltd.", "Co.,Ltd", "Co,Ltd.", "Co,Ltd", "Co.Ltd.", "Co.Ltd", "CoLtd.", "CoLtd"
  }

  /**
   * `SUFFIX_PAT` matches starting at `i`: the rest of `s` is a suffix, or
   * (since `$` also matches before a final newline) the rest minus that newline is.
   */
  predicate SuffixMatchAt(s: string, i: nat)
    requires i <= |s|
  {
    || s[i..] in LegalSuffixes
    || (i < |s| && s[|s| - 1] == '\n' && s[i..|s| - 1] in LegalSuffixes)
  }

  /** The leftmost offset at or after `i` where `SUFFIX_PAT` matches, or `|s|` if none. */
  function FirstSuffixMatch(s: string, i: nat): (r: nat)
    requires i <= |s|
    ensures i <= r <= |s|
    ensures r < |s| ==> SuffixMatchAt(s, r)
    ensures forall k :: i <= k < r ==> !SuffixMatchAt(s, k)
    ensures forall k :: i <= k < r ==> s[k..] !in LegalSuffixes
    decreases |s| - i
  {
    if i == |s| then |s|
    else if SuffixMatchAt(s, i) then i
    else FirstSuffixMatch(s, i + 1)
  }

  /**
   * `SUFFIX_PAT.sub("", s)`. The pattern cannot match twice (a match runs to
   * the end), so at most one suffix goes: the one starting leftmost, which is
   * the longest one.
   */
  function SubLegalSuffix(s: string): (r: string)
    ensures (s == [] || s[|s| - 1] != '\n') ==>
      && r <= s
      && (r == s || s[|r|..] in LegalSuffixes)
      && forall k :: 0 <= k < |r| ==> s[k..] !in LegalSuffixes
    ensures |s| > 0 && s[|s| - 1] == '\n' ==>
      r == s || (0 < |r| <= |s| && r == s[..|r| - 1] + "\n" && s[|r| - 1..|s| - 1] in LegalSuffixes)
  {
    var i := FirstSuffixMatch(s, 0);
    if i == |s| then s
    else if s[i..] in LegalSuffixes then s[..i]
    else s[..i] + "\n"
  }

  /**
   * The substitution changes the text exactly when the pattern matches
   * somewhere, and then it cuts at the leftmost match: no match starts before
   * the cut, whether or not the text ends in a newline.
   */
  lemma SubLegalSuffixLeftmost(s: string)
    ensures SubLegalSuffix(s) == s <==> forall k :: 0 <= k < |s| ==> !SuffixMatchAt(s, k)
    ensures SubLegalSuffix(s) != s ==> |SubLegalSuffix(s)| < |s|
    ensures SubLegalSuffix(s) != s && s[|s| - 1] != '\n' ==>
      forall k :: 0 <= k < |SubLegalSuffix(s)| ==> !SuffixMatchAt(s, k)
    ensures SubLegalSuffix(s) != s && s[|s| - 1] == '\n' ==>
      && 0 < |SubLegalSuffix(s)|
      && SubLegalSuffix(s)[|SubLegalSuffix(s)| - 1] == '\n'
      && forall k :: 0 <= k < |SubLegalSuffix(s)| - 1 ==> !SuffixMatchAt(s, k)
  {
    var i := FirstSuffixMatch(s, 0);
    if i < |s| {
      assert SuffixMatchAt(s, i);
      if s[i..] !in LegalSuffixes {
        assert s[i..|s| - 1] in LegalSuffixes;
        assert "" !in LegalSuffixes;
        assert i < |s| - 1;
      }
    }
  }

  predicate IsOpener(c: char) {
    c == '（' || c == '('
  }

  /** The bracket that closes `open` in `（.*?）|\(.*?\)`. */
  function CloserOf(open: char): (c: char)
    ensures c != '\n'
  {
    if open == '（' then '）' else ')'
  }

  /**
   * Where the lazy `.*?<close>` stops: the index of the first `close` in `t`,
   * or None when a newline (which `.` does not match) or the end comes first.
   */
  function FindClose(t: string, close: char): (r: Option<nat>)
    requires close != '\n'
    ensures r.Some? ==> r.value < |t| && t[r.value] == close
    ensures r.Some? ==> forall k :: 0 <= k < r.value ==> t[k] != close && t[k] != '\n'
    ensures r.None? ==> forall k :: 0 <= k < |t| && t[k] == close ==> exists m :: 0 <= m < k && t[m] == '\n'
  {
    if t == [] then None
    else if t[0] == close then Some(0)
    else if t[0] == '\n' then None
    else match FindClose(t[1..], close)
      case None => None
      case Some(j) => Some(j + 1)
  }

  /**
   * `re.sub(r"（.*?）|\(.*?\)", "", s)`: scanning left to right, every opening
   * bracket whose closer follows on the same line is deleted together with
   * everything up to and including that closer.
   */
  function DropBracketed(s: string): (r: string)
    ensures |r| <= |s|
    decreases |s|
  {
    if s == [] then []
    else if IsOpener(s[0]) && FindClose(s[1..], CloserOf(s[0])).Some? then
      DropBracketed(s[FindClose(s[1..], CloserOf(s[0])).value + 2..])
    else [s[0]] + DropBracketed(s[1..])
  }

  /** Text before the first opening bracket is kept as it is. */
  lemma {:induction false} DropBracketedPlainPrefix(a: string, t: string)
    requires forall i :: 0 <= i < |a| ==> !IsOpener(a[i])
    ensures DropBracketed(a + t) == a + DropBracketed(t)
    decreases |a|
  {
    if a == [] {
      assert a + t == t;
    } else {
      assert (a + t)[0] == a[0] && (a + t)[1..] == a[1..] + t;
      DropBracketedPlainPrefix(a[1..], t);
      AppendAssoc([a[0]], a[1..], DropBracketed(t));
      assert [a[0]] + a[1..] == a;
    }
  }

  /** The lazy `.*?` ends at the closer that follows a run free of closers and newlines. */
  lemma {:induction false} FindCloseAfter(m: string, close: char, c: string)
    requires close != '\n'
    requires forall k :: 0 <= k < |m| ==> m[k] != close && m[k] != '\n'
    ensures FindClose(m + [close] + c, close) == Some(|m|)
    decreases |m|
  {
    var t := m + [close] + c;
    if m == [] {
      assert t[0] == close;
    } else {
      assert t[0] == m[0];
      assert t[1..] == m[1..] + [close] + c;
      FindCloseAfter(m[1..], close, c);
    }
  }

  /**
   * A bracketed segment, opener through the first matching closer on the same
   * line, is deleted; the text before it is kept and the text after it is
   * processed on its own.
   */
  lemma DropBracketedRemovesSegment(a: string, o: char, m: string, c: string)
    requires forall i :: 0 <= i < |a| ==> !IsOpener(a[i])
    requires IsOpener(o)
    requires forall k :: 0 <= k < |m| ==> m[k] != CloserOf(o) && m[k] != '\n'
    ensures DropBracketed(a + [o] + m + [CloserOf(o)] + c) == a + DropBracketed(c)
  {
    var t := [o] + m + [CloserOf(o)] + c;
    RegroupAfterPrefix(a, [o], m, [CloserOf(o)], c);
    DropBracketedPlainPrefix(a, t);
    DropBracketedSegmentAtStart(o, m, c);
  }

  /** A string that starts with a bracketed segment loses that segment. */
  lemma DropBracketedSegmentAtStart(o: char, m: string, c: string)
    requires IsOpener(o)
    requires forall k :: 0 <= k < |m| ==> m[k] != CloserOf(o) && m[k] != '\n'
    ensures DropBracketed([o] + m + [CloserOf(o)] + c) == DropBracketed(c)
  {
    var t := [o] + m + [CloserOf(o)] + c;
    FindCloseAfter(m, CloserOf(o), c);
    assert t[0] == o && t[1..] == m + [CloserOf(o)] + c;
    assert t[|m| + 2..] == c;
  }

  /** Regrouping a five-part concatenation after its first part. */
  lemma RegroupAfterPrefix(a: string, b: string, d: string, e: string, f: string)
    ensures a + b + d + e + f == a + (b + d + e + f)
  {
  }

  /** An opening bracket with no closer on its line is kept, and the scan goes on after it. */
  lemma DropBracketedKeepsUnclosed(a: string, o: char, t: string)
    requires forall i :: 0 <= i < |a| ==> !IsOpener(a[i])
    requires IsOpener(o) && FindClose(t, CloserOf(o)).None?
    ensures DropBracketed(a + [o] + t) == a + [o] + DropBracketed(t)
  {
    var u := [o] + t;
    assert a + [o] + t == a + u;
    DropBracketedPlainPrefix(a, u);
    assert u[0] == o && u[1..] == t;
    AppendAssoc(a, [o], DropBracketed(t));
  }

  /** The bracket pattern finds no match anywhere in `s`. */
  predicate Bracketless(s: string)
    decreases |s|
  {
    s == [] || ((IsOpener(s[0]) ==> FindClose(s[1..], CloserOf(s[0])).None?) && Bracketless(s[1..]))
  }

  /** A first line free of `c` stays free of `c` once a prefix without newlines is cut off. */
  lemma {:induction false} NoCloseAfterLineStart(t: string, c: char, m: nat)
    requires c != '\n' && FindClose(t, c).None?
    requires m <= |t| && forall k :: 0 <= k < m ==> t[k] != '\n'
    ensures FindClose(t[m..], c).None?
    decreases m
  {
    if m > 0 {
      assert t[0] != c && t[0] != '\n';
      assert t[1..][m - 1..] == t[m..];
      NoCloseAfterLineStart(t[1..], c, m - 1);
    }
  }

  /** Deleting bracketed segments never brings a closer onto a first line that had none. */
  lemma {:induction false} DropKeepsNoClose(t: string, c: char)
    requires c != '\n' && FindClose(t, c).None?
    ensures FindClose(DropBracketed(t), c).None?
    decreases |t|
  {
    if t != [] && t[0] != '\n' {
      assert t[0] != c;
      if IsOpener(t[0]) && FindClose(t[1..], CloserOf(t[0])).Some? {
        var j := FindClose(t[1..], CloserOf(t[0])).value;
        forall k | 0 <= k < j + 2 ensures t[k] != '\n' {
          if 0 < k < j + 1 {
            assert t[1..][k - 1] == t[k];
          }
        }
        NoCloseAfterLineStart(t, c, j + 2);
        DropKeepsNoClose(t[j + 2..], c);
      } else {
        DropKeepsNoClose(t[1..], c);
        var d := DropBracketed(t[1..]);
        assert ([t[0]] + d)[1..] == d;
      }
    }
  }

  /** After the substitution the bracket pattern has nothing left to match. */
  lemma {:induction false} DropBracketedIsBracketless(s: string)
    ensures Bracketless(DropBracketed(s))
    decreases |s|
  {
    if s != [] {
      if IsOpener(s[0]) && FindClose(s[1..], CloserOf(s[0])).Some? {
        DropBracketedIsBracketless(s[FindClose(s[1..], CloserOf(s[0])).value + 2..]);
      } else {
        var d := DropBracketed(s[1..]);
        DropBracketedIsBracketless(s[1..]);
        if IsOpener(s[0]) {
          DropKeepsNoClose(s[1..], CloserOf(s[0]));
        }
        assert ([s[0]] + d)[1..] == d;
      }
    }
  }

  /** A string the pattern does not match is left as it is. */
  lemma {:induction false} DropBracketedOfBracketless(s: string)
    requires Bracketless(s)
    ensures DropBracketed(s) == s
    decreases |s|
  {
    if s != [] {
      DropBracketedOfBracketless(s[1..]);
    }
  }

  /** `normalize_company_name(name)`, with NFKC supplied as `nfkc`. */
  function Normalize(name: string, nfkc: string -> string): (r: string)
    ensures name == [] ==> r == []
    ensures NoSpace(r)
  {
    if name == [] then []
    else
      var s := DeleteSpaces(DropBracketed(Strip(nfkc(name))));
      var r := SubLegalSuffix(s);
      assert forall k :: 0 <= k < |r| ==> r[k] == s[k];
      r
  }

  /**
   * On a name that is already NFKC, space-free and bracket-free, exactly the
   * longest legal suffix is removed, once: `core` survives whenever no legal
   * suffix starts inside it.
   */
  lemma NormalizeRemovesOneSuffix(core: string, suffix: string, nfkc: string -> string)
    requires suffix in LegalSuffixes
    requires nfkc(core + suffix) == core + suffix
    requires NoSpace(core) && forall i :: 0 <= i < |core| ==> !IsOpener(core[i])
    requires forall k :: 0 <= k < |core| ==> (core + suffix)[k..] !in LegalSuffixes
    ensures Normalize(core + suffix, nfkc) == core
  {
    var s := core + suffix;
    LegalSuffixIsClean(suffix);
    CleanJoin(core, suffix);
    NormalizeOfCleanText(s, nfkc);
    assert s[|core|..] == suffix;
    SubLegalSuffixCuts(s, |core|);
    assert s[..|core|] == core;
  }

  lemma LegalSuffixIsClean(x: string)
    requires x in LegalSuffixes
    ensures x != [] && NoSpace(x) && x[|x| - 1] != '\n'
    ensures forall i :: 0 <= i < |x| ==> !IsOpener(x[i])
  {
    LegalSuffixChars(x);
  }

  lemma CleanJoin(a: string, b: string)
    requires NoSpace(a) && forall i :: 0 <= i < |a| ==> !IsOpener(a[i])
    requires b != [] && NoSpace(b) && forall i :: 0 <= i < |b| ==> !IsOpener(b[i])
    ensures NoSpace(a + b) && forall i :: 0 <= i < |a + b| ==> !IsOpener((a + b)[i])
    ensures IsStripped(a + b)
  {
    var s := a + b;
    assert forall i :: |a| <= i < |s| ==> s[i] == b[i - |a|];
  }

  /**
   * Only one suffix goes per call, so normalizing is not idempotent:
   * `公司公司` becomes `公司`, which becomes the empty string.
   */
  lemma NormalizeIsNotIdempotent(nfkc: string -> string)
    requires nfkc("公司公司") == "公司公司" && nfkc("公司") == "公司"
    ensures Normalize("公司公司", nfkc) == "公司"
    ensures Normalize(Normalize("公司公司", nfkc), nfkc) == ""
  {
    var twice: string := "公司公司";
    assert twice == "公司" + "公司";
    assert twice[0..] !in LegalSuffixes && twice[1..] !in LegalSuffixes;
    NormalizeRemovesOneSuffix("公司", "公司", nfkc);
    assert "公司" == [] + "公司";
    NormalizeRemovesOneSuffix([], "公司", nfkc);
  }

  /** For a name that NFKC, `strip` and the bracket pattern leave alone, only the spaces and the suffix go. */
  lemma NormalizeOfCleanText(name: string, nfkc: string -> string)
    requires name != [] && nfkc(name) == name && IsStripped(name)
    requires forall i :: 0 <= i < |name| ==> !IsOpener(name[i])
    ensures Normalize(name, nfkc) == SubLegalSuffix(DeleteSpaces(name))
  {
    NoOpenerBracketless(name);
    DropBracketedOfBracketless(name);
  }

  /** A name in which the suffix pattern matches nowhere comes back unchanged. */
  lemma SubLegalSuffixIdentity(s: string)
    requires forall k :: 0 <= k <= |s| ==> !SuffixMatchAt(s, k)
    ensures SubLegalSuffix(s) == s
  {
    assert FirstSuffixMatch(s, 0) == |s|;
  }

  /** The suffix pattern removes the legal suffix that starts leftmost. */
  lemma SubLegalSuffixCuts(s: string, i: nat)
    requires i < |s| && s[|s| - 1] != '\n' && s[i..] in LegalSuffixes
    requires forall k :: 0 <= k < i ==> s[k..] !in LegalSuffixes
    ensures SubLegalSuffix(s) == s[..i]
  {
  }

  /** A name with nothing to remove (no space, bracket or legal suffix) normalizes to itself. */
  lemma NormalizeOfFinalName(name: string, nfkc: string -> string)
    requires name != [] && nfkc(name) == name && NoSpace(name)
    requires forall i :: 0 <= i < |name| ==> !IsOpener(name[i])
    requires forall k :: 0 <= k <= |name| ==> !SuffixMatchAt(name, k)
    ensures Normalize(name, nfkc) == name
  {
    NormalizeOfCleanText(name, nfkc);
    SubLegalSuffixIdentity(name);
  }

  /** Every legal suffix ends in `司`, `d` or `.`. */
  lemma NotLegalByLastChar(x: string)
    requires x != [] && x[|x| - 1] !in "司d."
    ensures x !in LegalSuffixes
  {
    if x in LegalSuffixes {
      LegalSuffixChars(x);
      assert false;
    }
  }

  /** Every legal suffix holds `C` or one of the Chinese suffix characters. */
  lemma NotLegalByLetters(x: string)
    requires forall i :: 0 <= i < |x| ==> x[i] != 'C' && x[i] !in "股份有限公司"
    ensures x !in LegalSuffixes
  {
    if x in LegalSuffixes {
      LegalSuffixChars(x);
      assert false;
    }
  }

  /** Every legal suffix is non-empty and made of letters and punctuation only. */
  lemma LegalSuffixChars(x: string)
    requires x in LegalSuffixes
    ensures 2 <= |x| <= 8
    ensures x[0] in "股有公C" && x[|x| - 1] in "司d."
    ensures forall i :: 0 <= i < |x| ==> x[i] in "股份有限公司Co.,Ltd"
  {
  }

  lemma {:induction false} NoOpenerBracketless(s: string)
    requires forall i :: 0 <= i < |s| ==> !IsOpener(s[i])
    ensures Bracketless(s)
    decreases |s|
  {
    if s != [] {
      NoOpenerBracketless(s[1..]);
    }
  }
}
