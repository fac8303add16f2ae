/**
 * `_match_company` (mcp_server/server.py): exact or substring comparison of a
 * row's company name with the user's query, on the raw and on the normalized
 * names, lower-cased first unless the comparison is case-sensitive.
 */
module Matching {
  import opened Text
  import opened CompanyNames

  /** The `CASE_SENSITIVE` and `PARTIAL_MATCH` settings, read once from the environment. */
  datatype MatchConfig = MatchConfig(caseSensitive: bool, partialMatch: bool)

  /** The Unicode library operations the server calls: NFKC normalization and `str.lower`. */
  datatype TextOps = TextOps(nfkc: string -> string, lower: string -> string)

  /** `_match_company(rowValue, userInput)` */
  predicate Match(rowValue: string, userInput: string, cfg: MatchConfig, ops: TextOps) {
    var rowV := if cfg.caseSensitive then rowValue else ops.lower(rowValue);
    var userV := if cfg.caseSensitive then userInput else ops.lower(userInput);
    var rowN := Normalize(rowV, ops.nfkc);
    var userN := Normalize(userV, ops.nfkc);
    if cfg.partialMatch then Contains(rowV, userV) || Contains(rowN, userN)
    else rowV == userV || rowN == userN
  }

  /** Every name matches itself, whatever the settings. */
  lemma MatchReflexive(name: string, cfg: MatchConfig, ops: TextOps)
    ensures Match(name, name, cfg, ops)
  {
    var v := if cfg.caseSensitive then name else ops.lower(name);
    assert Contains(v, v);
  }

  /** Turning on partial matching never loses a match. */
  lemma ExactMatchImpliesPartial(rowValue: string, userInput: string, caseSensitive: bool, ops: TextOps)
    ensures Match(rowValue, userInput, MatchConfig(caseSensitive, false), ops)
        ==> Match(rowValue, userInput, MatchConfig(caseSensitive, true), ops)
  {
    var rowV := if caseSensitive then rowValue else ops.lower(rowValue);
    var rowN := Normalize(rowV, ops.nfkc);
    assert Contains(rowV, rowV) && Contains(rowN, rowN);
  }

  /** With partial matching an empty query matches every row (`"" in s` always holds). */
  lemma EmptyQueryMatchesEveryRow(rowValue: string, cfg: MatchConfig, ops: TextOps)
    requires cfg.partialMatch
    requires !cfg.caseSensitive ==> ops.lower("") == ""
    ensures Match(rowValue, "", cfg, ops)
  {
    var rowV := if cfg.caseSensitive then rowValue else ops.lower(rowValue);
    assert [] <= rowV;
  }

  /**
   * The suffix pattern is case-sensitive and is applied after lower-casing:
   * with the default case-insensitive setting an English `Co.,Ltd.` suffix is
   * kept, so `ACME Co.,Ltd.` does not match the query `ACME` exactly, while
   * it does when the comparison is case-sensitive.
   */
  lemma EnglishSuffixSurvivesCaseFolding(row: string, user: string, ops: TextOps)
    requires row == "ACME Co.,Ltd." && user == "ACME"
    requires ops.lower(row) == "acme co.,ltd." && ops.lower(user) == "acme"
    requires ops.nfkc(row) == row && ops.nfkc(user) == user
    requires ops.nfkc(ops.lower(row)) == ops.lower(row) && ops.nfkc(ops.lower(user)) == ops.lower(user)
    ensures !Match(row, user, MatchConfig(false, false), ops)
    ensures Match(row, user, MatchConfig(true, false), ops)
  {
    var word, suffix := AcmeWords(row, ops.lower(row));
    AcmeIsFinal(user);
    AcmeIsFinal(ops.lower(user));
    FoldedNamesDiffer(ops.lower(row), ops.lower(user), suffix, ops.nfkc);
    RawNamesAgree(row, user, word, ops.nfkc);
  }

  /** Lower-cased, the suffix stays on the row's name, so neither comparison succeeds. */
  lemma FoldedNamesDiffer(row: string, user: string, suffix: string, nfkc: string -> string)
    requires row == user + " " + suffix
    requires user != [] && NoSpace(user) && forall i :: 0 <= i < |user| ==> !IsOpener(user[i])
    requires forall k :: 0 <= k <= |user| ==> !SuffixMatchAt(user, k)
    requires suffix != [] && NoSpace(suffix) && forall i :: 0 <= i < |suffix| ==> !IsOpener(suffix[i])
    requires forall k :: 0 <= k <= |user + suffix| ==> !SuffixMatchAt(user + suffix, k)
    requires nfkc(row) == row && nfkc(user) == user
    ensures row != user && Normalize(row, nfkc) != Normalize(user, nfkc)
  {
    NormalizeKeepsSpacedWords(user, suffix, nfkc);
    NormalizeOfFinalName(user, nfkc);
    assert |user + suffix| > |user|;
  }

  /** With the case kept, the suffix goes and the normalized names agree. */
  lemma RawNamesAgree(row: string, user: string, word: string, nfkc: string -> string)
    requires row == user + " " + word
    requires user != [] && NoSpace(user) && forall i :: 0 <= i < |user| ==> !IsOpener(user[i])
    requires forall k :: 0 <= k <= |user| ==> !SuffixMatchAt(user, k)
    requires word in LegalSuffixes
    requires forall k :: 0 <= k < |user| ==> (user + word)[k..] !in LegalSuffixes
    requires nfkc(row) == row && nfkc(user) == user
    ensures Normalize(row, nfkc) == Normalize(user, nfkc)
  {
    NormalizeDropsSpacedSuffix(user, word, nfkc);
    NormalizeOfFinalName(user, nfkc);
  }

  /**
   * The pieces of the two spellings: `ACME` and `acme` carry nothing the
   * normalization removes, `Co.,Ltd.` is a legal suffix that no other legal
   * suffix overlaps, and the suffix pattern matches nowhere in `acmeco.,ltd.`.
   */
  lemma AcmeWords(row: string, folded: string) returns (word: string, suffix: string)
    requires row == "ACME Co.,Ltd." && folded == "acme co.,ltd."
    ensures row == "ACME" + " " + word && folded == "acme" + " " + suffix
    ensures word in LegalSuffixes
    ensures forall k :: 0 <= k < 4 ==> ("ACME" + word)[k..] !in LegalSuffixes
    ensures suffix != [] && NoSpace(suffix) && forall i :: 0 <= i < |suffix| ==> !IsOpener(suffix[i])
    ensures forall k :: 0 <= k <= |"acme" + suffix| ==> !SuffixMatchAt("acme" + suffix, k)
  {
    word, suffix := "Co.,Ltd.", "co.,ltd.";
    AcmeIsFinal("ACME");
    AcmeIsFinal("acme");
    RawSuffixAfterAcme("ACME" + word);
    FoldedSuffixNowhere("acme" + suffix);
  }

  lemma AcmeIsFinal(w: string)
    requires w == "ACME" || w == "acme"
    ensures w != [] && NoSpace(w)
    ensures forall i :: 0 <= i < |w| ==> !IsOpener(w[i])
    ensures forall k :: 0 <= k <= |w| ==> !SuffixMatchAt(w, k)
  {
    forall k | 0 <= k <= |w| ensures !SuffixMatchAt(w, k) {
      if k < |w| {
        NotLegalByLastChar(w[k..]);
      }
    }
  }

  lemma FoldedSuffixNowhere(s: string)
    requires s == "acmeco.,ltd."
    ensures forall k :: 0 <= k <= |s| ==> !SuffixMatchAt(s, k)
  {
    forall k | 0 <= k <= |s| ensures !SuffixMatchAt(s, k) {
      NotLegalByLetters(s[k..]);
    }
  }

  lemma RawSuffixAfterAcme(s: string)
    requires s == "ACMECo.,Ltd."
    ensures s[4..] in LegalSuffixes
    ensures forall k :: 0 <= k < 4 ==> s[k..] !in LegalSuffixes
  {
    assert s[4..] == "Co.,Ltd.";
    forall k | 0 <= k < 4 ensures s[k..] !in LegalSuffixes {
      if s[k..] in LegalSuffixes {
        LegalSuffixChars(s[k..]);
      }
    }
  }

  /** A word and a legal suffix joined by one blank: the blank and the suffix go. */
  lemma NormalizeDropsSpacedSuffix(a: string, b: string, nfkc: string -> string)
    requires a != [] && NoSpace(a) && forall i :: 0 <= i < |a| ==> !IsOpener(a[i])
    requires b in LegalSuffixes
    requires forall k :: 0 <= k < |a| ==> (a + b)[k..] !in LegalSuffixes
    requires nfkc(a + " " + b) == a + " " + b
    ensures Normalize(a + " " + b, nfkc) == a
  {
    LegalSuffixIsClean(b);
    NormalizeSpacedWords(a, b, nfkc);
    var s := a + b;
    assert s[|a|..] == b && s[|s| - 1] == b[|b| - 1];
    SubLegalSuffixCuts(s, |a|);
    assert s[..|a|] == a;
  }

  /** Two words joined by one blank, in which the suffix pattern finds nothing: only the blank goes. */
  lemma NormalizeKeepsSpacedWords(a: string, b: string, nfkc: string -> string)
    requires a != [] && NoSpace(a) && forall i :: 0 <= i < |a| ==> !IsOpener(a[i])
    requires b != [] && NoSpace(b) && forall i :: 0 <= i < |b| ==> !IsOpener(b[i])
    requires forall k :: 0 <= k <= |a + b| ==> !SuffixMatchAt(a + b, k)
    requires nfkc(a + " " + b) == a + " " + b
    ensures Normalize(a + " " + b, nfkc) == a + b
  {
    NormalizeSpacedWords(a, b, nfkc);
    SubLegalSuffixIdentity(a + b);
  }

  /** Two plain words joined by one blank: the blank goes, then the suffix pattern runs. */
  lemma NormalizeSpacedWords(a: string, b: string, nfkc: string -> string)
    requires a != [] && b != [] && NoSpace(a) && NoSpace(b)
    requires forall i :: 0 <= i < |a| ==> !IsOpener(a[i])
    requires forall i :: 0 <= i < |b| ==> !IsOpener(b[i])
    requires nfkc(a + " " + b) == a + " " + b
    ensures Normalize(a + " " + b, nfkc) == SubLegalSuffix(a + b)
  {
    var s := a + " " + b;
    assert s[0] == a[0] && s[|s| - 1] == b[|b| - 1];
    forall i | 0 <= i < |s| ensures !IsOpener(s[i]) {
      if i < |a| { assert s[i] == a[i]; }
      else if i > |a| { assert s[i] == b[i - |a| - 1]; }
    }
    NormalizeOfCleanText(s, nfkc);
    SpaceJoined(a, b);
  }

  /** Two space-free words joined by one blank lose the blank. */
  lemma SpaceJoined(a: string, b: string)
    requires NoSpace(a) && NoSpace(b)
    ensures DeleteSpaces(a + " " + b) == a + b
  {
    var blank: string := [' '];
    var head := a + blank;
    DeleteSpacesAppend(head, b);
    DeleteSpacesAppend(a, blank);
    assert DeleteSpaces(blank) == [] by {
      assert blank[1..] == [];
    }
    assert DeleteSpaces(head) == a;
    assert DeleteSpaces(b) == b;
  }
}
