/**
 * What the app does to the text typed into the location box before it asks
 * the geocoding service: sanatizeInput, the two-character acceptance test of
 * the Enter handler, and parseLocationQuery, which splits "name, hint".
 */
module Query {
  import opened Text
  import Seqs

  /** The longest query sanatizeInput lets through. */
  const MAX_QUERY_LENGTH: nat := 100
  /** The shortest sanitised query the Enter handler accepts. */
  const MIN_QUERY_LENGTH: nat := 2

  datatype LocationQuery = LocationQuery(name: string, hint: string)

  predicate IsAngleBracket(c: char) {
    c == '<' || c == '>'
  }

  /** What the global replace of /[<>]/ with '' keeps. */
  predicate IsKeptChar(c: char) {
    !IsAngleBracket(c)
  }

  /** What filter(Boolean) keeps of a list of strings. */
  predicate IsNonEmpty(part: string) {
    part != []
  }

  /**
   * sanatizeInput: trim, lower-case, delete every '<' and '>' (the global
   * replace of /[<>]/), then keep at most the first 100 characters.
   */
  function SanitizeInput(query: string): (r: string)
    ensures |r| <= MAX_QUERY_LENGTH
    ensures forall k :: 0 <= k < |r| ==> !IsAngleBracket(r[k])
  {
    var stripped := Seqs.Filter(Lower(Trim(query)), IsKeptChar);
    if |stripped| <= MAX_QUERY_LENGTH then stripped else stripped[..MAX_QUERY_LENGTH]
  }

  /** Sanitising only drops characters: what is left is lower-case text taken from the lower-cased input. */
  lemma SanitizeIsLowerCase(query: string)
    ensures IsLower(SanitizeInput(query))
    ensures forall k :: 0 <= k < |SanitizeInput(query)| ==> SanitizeInput(query)[k] in Lower(query)
  {
    var trimmed := Trim(query);
    var lowered := Lower(trimmed);
    var stripped := Seqs.Filter(lowered, IsKeptChar);
    forall k | 0 <= k < |stripped|
      ensures stripped[k] in Lower(query) && !('A' <= stripped[k] <= 'Z')
    {
      Seqs.FilterMembers(lowered, IsKeptChar, stripped[k]);
      var i :| 0 <= i < |lowered| && lowered[i] == stripped[k];
      assert trimmed[i] in query;
      var j :| 0 <= j < |query| && query[j] == trimmed[i];
      assert Lower(query)[j] == stripped[k];
    }
  }

  /** The Enter handler refuses a sanitised query that is empty or one character long. */
  predicate IsAcceptedQuery(raw: string)
    ensures IsAcceptedQuery(raw) ==> |Trim(raw)| >= MIN_QUERY_LENGTH
  {
    |SanitizeInput(raw)| >= MIN_QUERY_LENGTH
  }

  /** Input that is already clean (trimmed, lower-case, no brackets, short enough) comes back unchanged. */
  lemma SanitizeKeepsCleanInput(query: string)
    requires IsTrimmed(query) && IsLower(query)
    requires forall k :: 0 <= k < |query| ==> !IsAngleBracket(query[k])
    requires |query| <= MAX_QUERY_LENGTH
    ensures SanitizeInput(query) == query
  {
    var trimmed := Trim(query);
    assert trimmed == query by {
      TrimPadded([], query, []);
      assert [] + query + [] == query;
    }
    var lowered := Lower(trimmed);
    assert lowered == query by {
      LowerKeepsLowerCase(query);
    }
    assert Seqs.Filter(lowered, IsKeptChar) == query by {
      Seqs.FilterKeepsAll(query, IsKeptChar);
    }
  }

  lemma LowerKeepsLowerCase(s: string)
    requires IsLower(s)
    ensures Lower(s) == s
  {
    assert forall k :: 0 <= k < |s| ==> Lower(s)[k] == s[k];
  }

  /** Sanitising is blind to letter case: a lower-cased query sanitises to the same text. */
  lemma SanitizeIgnoresCase(query: string)
    ensures SanitizeInput(Lower(query)) == SanitizeInput(query)
  {
    TrimLowerCommute(query);
    assert Lower(Lower(Trim(query))) == Lower(Trim(query));
  }

  lemma TrimLowerCommute(s: string)
    ensures Trim(Lower(s)) == Lower(Trim(s))
  {
    var start := TrimStartIndex(s, 0);
    TrimStartIndexLower(s, 0);
    TrimEndIndexLower(s, start, |s|);
    var end := TrimEndIndex(s, start, |s|);
    assert Trim(Lower(s)) == Lower(s)[start..end];
    LowerSlice(s, start, end);
  }

  lemma LowerSlice(s: string, lo: nat, hi: nat)
    requires lo <= hi <= |s|
    ensures Lower(s)[lo..hi] == Lower(s[lo..hi])
  {
    var a := Lower(s)[lo..hi];
    var b := Lower(s[lo..hi]);
    assert |a| == |b|;
    forall k | 0 <= k < |a|
      ensures a[k] == b[k]
    {
      assert a[k] == LowerChar(s[lo + k]);
    }
  }

  lemma {:induction false} TrimStartIndexLower(s: string, i: nat)
    requires i <= |s|
    ensures TrimStartIndex(Lower(s), i) == TrimStartIndex(s, i)
    decreases |s| - i
  {
    if i < |s| {
      LowerCharKeepsWhitespace(s[i]);
      assert Lower(s)[i] == LowerChar(s[i]);
      TrimStartIndexLower(s, i + 1);
    }
  }

  lemma {:induction false} TrimEndIndexLower(s: string, lo: nat, hi: nat)
    requires lo <= hi <= |s|
    ensures TrimEndIndex(Lower(s), lo, hi) == TrimEndIndex(s, lo, hi)
    decreases hi
  {
    if lo < hi {
      LowerCharKeepsWhitespace(s[hi - 1]);
      assert Lower(s)[hi - 1] == LowerChar(s[hi - 1]);
      TrimEndIndexLower(s, lo, hi - 1);
    }
  }

  /** Lower-casing never turns whitespace into something else or the reverse. */
  lemma LowerCharKeepsWhitespace(c: char)
    ensures IsWhitespace(LowerChar(c)) == IsWhitespace(c)
  {
  }

  /**
   * Brackets are removed after trimming, so whitespace that stood next to a
   * bracket at either end survives into the sanitised query.
   */
  lemma SanitizeCanLeaveEdgeSpace()
    ensures SanitizeInput("< ab") == " ab"
  {
    var raw := "< ab";
    assert Trim(raw) == raw by {
      TrimPadded([], raw, []);
      assert [] + raw + [] == raw;
    }
    assert Lower(raw) == raw by {
      LowerKeepsLowerCase(raw);
    }
    BracketDropsOut();
  }

  lemma BracketDropsOut()
    ensures Seqs.Filter("< ab", IsKeptChar) == " ab"
  {
    var raw := "< ab";
    var keep := IsKeptChar;
    assert raw[..3] == "< a" && raw[..2] == "< " && raw[..1] == "<" && raw[..0] == "";
    assert Seqs.Filter("<", keep) == [];
    assert Seqs.Filter("< ", keep) == " ";
    assert Seqs.Filter("< a", keep) == " a";
  }

  /** Every accepted query yields a non-empty place name to look up. */
  lemma AcceptedQueryHasName(raw: string)
    requires IsAcceptedQuery(raw)
    ensures ParseLocationQuery(SanitizeInput(raw)).name != []
  {
  }

  /** query.split(',').map((part) => part.trim()) */
  function TrimmedPieces(query: string): (r: seq<string>)
    ensures |r| == |Split(query, ',')|
    ensures forall k :: 0 <= k < |r| ==> r[k] == Trim(Split(query, ',')[k])
  {
    var pieces := Split(query, ',');
    seq(|pieces|, i requires 0 <= i < |pieces| => Trim(pieces[i]))
  }

  /**
   * The non-empty trimmed comma-separated pieces, in order. There are none
   * exactly when every piece is blank.
   */
  function Parts(query: string): (parts: seq<string>)
    ensures forall k :: 0 <= k < |parts| ==> parts[k] != [] && IsTrimmed(parts[k]) && ',' !in parts[k]
    ensures parts == [] <==> forall k :: 0 <= k < |TrimmedPieces(query)| ==> TrimmedPieces(query)[k] == []
  {
    var trimmed := TrimmedPieces(query);
    Seqs.FilterEmpty(trimmed, IsNonEmpty);
    KeptPiecesAreClean(query);
    Seqs.Filter(trimmed, IsNonEmpty)
  }

  lemma KeptPiecesAreClean(query: string)
    ensures forall k :: 0 <= k < |Seqs.Filter(TrimmedPieces(query), IsNonEmpty)| ==>
              IsTrimmed(Seqs.Filter(TrimmedPieces(query), IsNonEmpty)[k]) && ',' !in Seqs.Filter(TrimmedPieces(query), IsNonEmpty)[k]
  {
    var trimmed := TrimmedPieces(query);
    var keep := IsNonEmpty;
    var parts := Seqs.Filter(trimmed, keep);
    forall k | 0 <= k < |parts|
      ensures IsTrimmed(parts[k]) && ',' !in parts[k]
    {
      Seqs.FilterMembers(trimmed, keep, parts[k]);
      var j :| 0 <= j < |trimmed| && trimmed[j] == parts[k];
      assert ',' !in Split(query, ',')[j];
    }
  }

  /**
   * parseLocationQuery: the name is the first non-empty trimmed piece, or the
   * raw query when there is none; the hint is the second such piece, or empty.
   * Pieces after the second are ignored. ParseFirstPiece and ParseSecondPiece
   * below say which pieces these are.
   */
  function ParseLocationQuery(query: string): (q: LocationQuery)
    ensures q.hint == [] || (IsTrimmed(q.hint) && ',' !in q.hint)
    ensures q.name == query || (q.name != [] && IsTrimmed(q.name) && ',' !in q.name)
    ensures (forall k :: 0 <= k < |TrimmedPieces(query)| ==> TrimmedPieces(query)[k] == []) ==> q == LocationQuery(query, [])
  {
    var parts := Parts(query);
    LocationQuery(if |parts| > 0 then parts[0] else query, if |parts| > 1 then parts[1] else [])
  }

  /**
   * The name is the first piece that is not blank, trimmed; there is a hint
   * exactly when some later piece is not blank.
   */
  lemma ParseFirstPiece(query: string, i: nat)
    requires i < |TrimmedPieces(query)| && TrimmedPieces(query)[i] != []
    requires forall k :: 0 <= k < i ==> TrimmedPieces(query)[k] == []
    ensures ParseLocationQuery(query).name == TrimmedPieces(query)[i]
    ensures ParseLocationQuery(query).hint == [] <==> forall k :: i < k < |TrimmedPieces(query)| ==> TrimmedPieces(query)[k] == []
  {
    FirstKept(TrimmedPieces(query), i);
  }

  /** With a second piece that is not blank, the query parses to the first two such pieces, trimmed, whatever follows. */
  lemma ParseSecondPiece(query: string, i: nat, j: nat)
    requires i < j < |TrimmedPieces(query)| && TrimmedPieces(query)[i] != [] && TrimmedPieces(query)[j] != []
    requires forall k :: 0 <= k < j && k != i ==> TrimmedPieces(query)[k] == []
    ensures ParseLocationQuery(query) == LocationQuery(TrimmedPieces(query)[i], TrimmedPieces(query)[j])
  {
    SecondKept(TrimmedPieces(query), i, j);
  }

  /** Keeping the non-empty strings: the first one kept is the first non-empty one, and a second is kept exactly when a later one is non-empty. */
  lemma FirstKept(t: seq<string>, i: nat)
    requires i < |t| && t[i] != []
    requires forall k :: 0 <= k < i ==> t[k] == []
    ensures |Seqs.Filter(t, IsNonEmpty)| > 0 && Seqs.Filter(t, IsNonEmpty)[0] == t[i]
    ensures |Seqs.Filter(t, IsNonEmpty)| > 1 <==> exists k :: i < k < |t| && t[k] != []
  {
    var keep := IsNonEmpty;
    Seqs.FilterFirst(t, keep, i);
    var rest := t[i + 1..];
    Seqs.FilterEmpty(rest, keep);
    if exists k :: i < k < |t| && t[k] != [] {
      var k :| i < k < |t| && t[k] != [];
      assert rest[k - i - 1] == t[k];
    } else {
      assert forall k :: 0 <= k < |rest| ==> rest[k] == t[i + 1 + k];
    }
  }

  /** Keeping the non-empty strings: the first two kept are the first two non-empty ones. */
  lemma SecondKept(t: seq<string>, i: nat, j: nat)
    requires i < j < |t| && t[i] != [] && t[j] != []
    requires forall k :: 0 <= k < j && k != i ==> t[k] == []
    ensures |Seqs.Filter(t, IsNonEmpty)| > 1
    ensures Seqs.Filter(t, IsNonEmpty)[0] == t[i] && Seqs.Filter(t, IsNonEmpty)[1] == t[j]
  {
    var keep := IsNonEmpty;
    Seqs.FilterFirst(t, keep, i);
    var rest := t[i + 1..];
    assert forall k :: 0 <= k < |rest| ==> rest[k] == t[i + 1 + k];
    Seqs.FilterFirst(rest, keep, j - i - 1);
  }

  /** A query without a comma has no hint; its name is the trimmed query, or the raw query if that is blank. */
  lemma ParseWithoutComma(query: string)
    requires ',' !in query
    ensures ParseLocationQuery(query).hint == []
    ensures ParseLocationQuery(query).name == if Trim(query) != [] then Trim(query) else query
  {
    SplitPlain(query, ',');
    if Trim(query) != [] {
      ParseFirstPiece(query, 0);
    }
  }

  /** The round trip: "name, hint" typed the canonical way parses back into its two halves. */
  lemma ParseNameAndHint(name: string, hint: string)
    requires name != [] && IsTrimmed(name) && ',' !in name
    requires hint != [] && IsTrimmed(hint) && ',' !in hint
    ensures ParseLocationQuery(name + ", " + hint) == LocationQuery(name, hint)
  {
    SplitNameAndHint(name, hint);
    assert Trim(name) == name by {
      TrimPadded([], name, []);
      assert [] + name + [] == name;
    }
    assert Trim(" " + hint) == hint by {
      TrimPadded(" ", hint, []);
      assert " " + hint + [] == " " + hint;
    }
    ParseSecondPiece(name + ", " + hint, 0, 1);
  }

  lemma SplitNameAndHint(name: string, hint: string)
    requires ',' !in name && ',' !in hint
    ensures Split(name + ", " + hint, ',') == [name, " " + hint]
  {
    var padded := " " + hint;
    assert [name, padded][1..] == [padded];
    assert Join([padded], ',') == padded;
    assert name + ", " + hint == Join([name, padded], ',');
    SplitJoin([name, padded], ',');
  }

}
