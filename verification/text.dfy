/** Case-insensitive literal substring matching, the part of pandas `str.contains(query,
    case=False)` that the search page relies on. Lower-casing is ASCII-only and the query is a
    literal: a pattern free of regular-expression metacharacters and of non-ASCII characters. */
module Text {

  /** The characters that make a regular expression differ from a literal string. */
  const RegexMetacharacters: string := ".^$*+?{}[]\\|()"

  /** ASCII lower-casing of one character; every other character is left alone. */
  function LowerChar(c: char): char {
    if 'A' <= c <= 'Z' then (c as int + 32) as char else c
  }

  /** ASCII lower-casing of a string, character by character. */
  function Lower(s: string): string {
    seq(|s|, i requires 0 <= i < |s| => LowerChar(s[i]))
  }

  /** The query is matched as a literal: ASCII and no regular-expression metacharacter. */
  predicate IsLiteralPattern(q: string) {
    forall i :: 0 <= i < |q| ==> q[i] < 128 as char && q[i] !in RegexMetacharacters
  }

  /** `needle` occurs in `hay` starting at position `i`. */
  predicate OccursAt(needle: string, hay: string, i: int) {
    0 <= i && i + |needle| <= |hay| && hay[i..i + |needle|] == needle
  }

  /** `needle` occurs as a contiguous piece of `hay` (the empty needle occurs everywhere). */
  predicate Occurs(needle: string, hay: string) {
    exists i :: 0 <= i <= |hay| && OccursAt(needle, hay, i)
  }

  /** `field` contains `query` when case is ignored. */
  predicate ContainsIgnoreCase(field: string, query: string) {
    Occurs(Lower(query), Lower(field))
  }

  /** Lower-casing twice is lower-casing once. */
  lemma LowerIdempotent(s: string)
    ensures Lower(Lower(s)) == Lower(s)
  {
  }

  /** Lower-casing a literal query keeps it literal. */
  lemma LowerKeepsLiteral(q: string)
    requires IsLiteralPattern(q)
    ensures IsLiteralPattern(Lower(q))
  {
    forall i | 0 <= i < |q|
      ensures Lower(q)[i] < 128 as char && Lower(q)[i] !in RegexMetacharacters
    {
      if 'A' <= q[i] <= 'Z' {
        assert 'a' <= Lower(q)[i] <= 'z';
      }
    }
  }

  /** Matching ignores the case of the query: the query and its lower-cased form match the
      same fields. */
  lemma ContainsIgnoresQueryCase(field: string, query: string)
    ensures ContainsIgnoreCase(field, query) <==> ContainsIgnoreCase(field, Lower(query))
  {
    LowerIdempotent(query);
  }

  /** A query of two or more characters cannot match a field in which its first two
      characters, ignoring case, never stand side by side. */
  lemma NoMatchWithoutLeadingPair(field: string, query: string)
    requires |query| >= 2
    requires forall j :: 0 <= j && j + 1 < |field| ==>
      LowerChar(field[j]) != LowerChar(query[0]) || LowerChar(field[j + 1]) != LowerChar(query[1])
    ensures !ContainsIgnoreCase(field, query)
  {
    var needle, hay := Lower(query), Lower(field);
    forall i | 0 <= i <= |hay|
      ensures !OccursAt(needle, hay, i)
    {
      if i + |needle| <= |hay| {
        assert hay[i..i + |needle|][0] == LowerChar(field[i]);
        assert hay[i..i + |needle|][1] == LowerChar(field[i + 1]);
      }
    }
  }

  /** A field as long as the query contains it exactly when the two agree, ignoring case. */
  lemma SameLengthMatch(field: string, query: string)
    requires |field| == |query|
    ensures ContainsIgnoreCase(field, query) <==> Lower(field) == Lower(query)
  {
    if Lower(field) == Lower(query) {
      assert OccursAt(Lower(query), Lower(field), 0);
    }
  }
}
