/**
 * The search box (docs/js/app.js, `applySearchFilter`): which rows a query
 * matches. The row's name is a parameter: the rows the source builds carry
 * no `data-name`, see `MatchAsWritten`.
 */
module Search {
  import opened Wrappers
  import opened Text
  import Dex

  /** The query as the filter uses it: trimmed and lower-cased. */
  function NormalizedQuery(query: string): string {
    Lower(Trim(query))
  }

  /**
   * A row matches when the normalized query is empty, or the name contains
   * it, or the row's dex label starts with it once its first '#' is removed.
   */
  predicate RowMatches(query: string, name: string, dex: string) {
    MatchesNormalized(NormalizedQuery(query), name, dex)
  }

  /** The same test for a query already trimmed and lower-cased. */
  predicate MatchesNormalized(q: string, name: string, dex: string) {
    q == [] || Contains(name, q) || StartsWith(dex, RemoveFirst(q, '#'))
  }

  /** A query of white space only matches every row. */
  lemma BlankQueryMatchesEveryRow(query: string, name: string, dex: string)
    requires forall i :: 0 <= i < |query| ==> IsSpace(query[i])
    ensures RowMatches(query, name, dex)
  {
  }

  /** Any other query leaves some row out: one whose name and dex label are empty. */
  lemma NonBlankQueryIsSelective(query: string)
    requires exists i :: 0 <= i < |query| && !IsSpace(query[i])
    ensures NormalizedQuery(query) != []
    ensures RowMatches(query, "", "") <==> RemoveFirst(NormalizedQuery(query), '#') == []
  {
  }

  /** A string with non-blank ends is its own trim. */
  lemma TrimOfTrimmed(s: string)
    requires s != [] && !IsSpace(s[0]) && !IsSpace(s[|s| - 1])
    ensures Trim(s) == s
  {
    var t := TrimStart(s);
    assert |t| == |s|;
    assert t == s;
  }

  /** '#' followed by any non-empty prefix of a row's dex label finds that row, whatever its name. */
  lemma DexPrefixQueryFindsRow(dex: nat, k: nat, name: string)
    requires 0 < k <= |Dex.PadDex(dex)|
    ensures RowMatches("#" + Dex.PadDex(dex)[..k], name, Dex.PadDex(dex))
  {
    var padded := Dex.PadDex(dex);
    var digits := padded[..k];
    var q := "#" + digits;
    assert IsDigit(q[|q| - 1]);
    TrimOfTrimmed(q);
    assert Lower(q) == q;
    assert q[0] == '#';
    assert RemoveFirst(q, '#') == digits;
  }

  /**
   * The label is padded, so the unpadded number is no prefix of it: for a
   * dex from 1 to 99, "#" and its plain digits (say "#25") do not find its row.
   */
  lemma UnpaddedDexQueryMisses(dex: nat, name: string)
    requires 0 < dex < 100
    requires !Contains(name, "#" + DecimalString(dex))
    ensures !RowMatches("#" + DecimalString(dex), name, Dex.PadDex(dex))
  {
    var digits := DecimalString(dex);
    var q := "#" + digits;
    assert |digits| <= 2 && digits[0] != '0' by {
      if dex >= 10 {
        assert DecimalString(dex / 10) == [DigitChar(dex / 10)];
      }
    }
    assert NormalizedQuery(q) == q by {
      assert IsDigit(q[|q| - 1]);
      TrimOfTrimmed(q);
      assert Lower(q) == q;
    }
    assert RemoveFirst(q, '#') == digits;
    var padded := Dex.PadDex(dex);
    assert padded[0] == '0';
    assert padded[..|digits|][0] != digits[0];
  }

  /**
   * The predicate as the source evaluates it, with the row's `data-name`
   * attribute, which is None when the attribute is absent: a non-blank query
   * then calls `includes` on `undefined`, which throws (None).
   */
  function MatchAsWritten(query: string, dataName: Option<string>, dex: string): (r: Option<bool>)
    ensures r.None? <==> NormalizedQuery(query) != [] && dataName.None?
    ensures r.Some? ==> r.value == RowMatches(query, dataName.GetOr(""), dex)
  {
    var q := NormalizedQuery(query);
    if q == [] then Some(true)
    else if dataName.None? then None
    else Some(Contains(dataName.value, q) || StartsWith(dex, RemoveFirst(q, '#')))
  }
}
