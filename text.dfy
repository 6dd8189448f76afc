/**
 * Case-insensitive substring matching, the meaning the search resolver gives
 * to `{ $regex: term, $options: 'i' }` when `term` holds no regular-expression
 * metacharacters.
 */
module Text {

  /** ASCII case folding: upper-case Latin letters to lower case, everything else unchanged. */
  function LowerChar(c: char): char {
    if 'A' <= c <= 'Z' then (c as int + 32) as char else c
  }

  function Lower(s: string): string {
    seq(|s|, i requires 0 <= i < |s| => LowerChar(s[i]))
  }

  /** `needle` occurs in `hay` starting at position `i`. */
  ghost predicate OccursAt(needle: string, hay: string, i: int) {
    0 <= i <= |hay| - |needle| && hay[i..i + |needle|] == needle
  }

  /** `needle` occurs in `hay` at some position. */
  ghost predicate Occurs(needle: string, hay: string) {
    exists i :: OccursAt(needle, hay, i)
  }

  /** Substring search by scanning start positions; agrees with Occurs on every input. */
  function Contains(hay: string, needle: string): (b: bool)
    ensures b <==> Occurs(needle, hay)
    decreases |hay|
  {
    if |needle| > |hay| then false
    else if needle <= hay then
      assert OccursAt(needle, hay, 0);
      true
    else
      OccursPastFirst(needle, hay);
      Contains(hay[1..], needle)
  }

  /** When `needle` is not a prefix of `hay`, an occurrence can only start after the first position. */
  lemma OccursPastFirst(needle: string, hay: string)
    requires |needle| <= |hay| && !(needle <= hay)
    ensures Occurs(needle, hay) <==> Occurs(needle, hay[1..])
  {
    if Occurs(needle, hay) {
      var i :| OccursAt(needle, hay, i);
      assert i != 0;
      assert OccursAt(needle, hay[1..], i - 1) by {
        assert hay[1..][i - 1..i - 1 + |needle|] == hay[i..i + |needle|];
      }
    }
    if Occurs(needle, hay[1..]) {
      var i :| OccursAt(needle, hay[1..], i);
      assert OccursAt(needle, hay, i + 1) by {
        assert hay[1..][i..i + |needle|] == hay[i + 1..i + 1 + |needle|];
      }
    }
  }

  /** Case-insensitive containment. */
  function ContainsIgnoringCase(hay: string, needle: string): (b: bool)
    ensures b <==> Occurs(Lower(needle), Lower(hay))
  {
    Contains(Lower(hay), Lower(needle))
  }

  /** The example of a search: "eng" matches both "Engineering" and "engineer", and not "Sales". */
  lemma EngMatchesEngineering()
    ensures ContainsIgnoringCase("Engineering", "eng")
    ensures ContainsIgnoringCase("engineer", "eng")
    ensures !ContainsIgnoringCase("Sales", "eng")
  {
    assert Lower("eng") == "eng";
    assert OccursAt("eng", Lower("Engineering"), 0);
    assert OccursAt("eng", Lower("engineer"), 0);
    assert Lower("Sales") == "sales";
    forall i | 0 <= i <= 2 ensures !OccursAt("eng", "sales", i) {
      assert "sales"[i] != 'e';
    }
  }
}
