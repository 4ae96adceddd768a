/**
 * The catalogue view: the text and decade filter applied when the results are
 * rendered, and the set of favourite designer ids.
 */
module Catalog {
  import opened Seqs
  import opened Designers

  /** ECMAScript white space and line terminators, the characters `trim` removes. */
  predicate IsSpace(c: char) {
    var u := c as int;
    || (0x09 <= u <= 0x0D) || u == 0x20 || u == 0xA0 || u == 0x1680
    || (0x2000 <= u <= 0x200A) || u == 0x2028 || u == 0x2029 || u == 0x202F
    || u == 0x205F || u == 0x3000 || u == 0xFEFF
  }

  /** Number of white-space characters at the start of `s`. */
  function LeadingSpaces(s: string): (n: nat)
    ensures n <= |s|
    ensures forall k :: 0 <= k < n ==> IsSpace(s[k])
    ensures n < |s| ==> !IsSpace(s[n])
  {
    if s != [] && IsSpace(s[0]) then 1 + LeadingSpaces(s[1..]) else 0
  }

  /** Number of white-space characters at the end of `s`. */
  function TrailingSpaces(s: string): (n: nat)
    ensures n <= |s|
    ensures forall k :: |s| - n <= k < |s| ==> IsSpace(s[k])
    ensures n < |s| ==> !IsSpace(s[|s| - n - 1])
  {
    if s != [] && IsSpace(s[|s| - 1]) then 1 + TrailingSpaces(s[..|s| - 1]) else 0
  }

  /** `s.trim()`: the slice of `s` left after removing white space at both ends. */
  function Trim(s: string): (r: string)
    ensures r == [] <==> forall k :: 0 <= k < |s| ==> IsSpace(s[k])
    ensures r != [] ==> r == s[LeadingSpaces(s)..|s| - TrailingSpaces(s)]
    ensures r != [] ==> !IsSpace(r[0]) && !IsSpace(r[|r| - 1])
  {
    var lead := LeadingSpaces(s);
    if lead == |s| then [] else s[lead..|s| - TrailingSpaces(s)]
  }

  /** `toLowerCase` on ASCII letters; other characters are kept as they are. */
  function LowerChar(c: char): char {
    if 'A' <= c <= 'Z' then (c as int + 32) as char else c
  }

  function Lower(s: string): (r: string)
    ensures |r| == |s|
    ensures forall i :: 0 <= i < |r| ==> !('A' <= r[i] <= 'Z')
    ensures forall i :: 0 <= i < |r| ==> (r[i] == s[i] <==> !('A' <= s[i] <= 'Z'))
    ensures forall i :: 0 <= i < |s| && 'A' <= s[i] <= 'Z' ==> r[i] as int == s[i] as int + 32
  {
    seq(|s|, i requires 0 <= i < |s| => LowerChar(s[i]))
  }

  /** `q` occurs in `s` starting at position `i`. */
  predicate OccursAt(s: string, q: string, i: int)
    requires 0 <= i <= |s| - |q|
  {
    s[i..i + |q|] == q
  }

  /** `s.includes(q)`. */
  predicate Contains(s: string, q: string) {
    exists i :: 0 <= i <= |s| - |q| && OccursAt(s, q, i)
  }

  /** `tags.join(sep)`. */
  function Join(tags: seq<string>, sep: string): string {
    if tags == [] then ""
    else if |tags| == 1 then tags[0]
    else tags[0] + sep + Join(tags[1..], sep)
  }

  /** Every tag appears in the joined string. */
  lemma {:induction false} JoinContainsTags(tags: seq<string>, sep: string, t: string)
    requires t in tags
    ensures Contains(Join(tags, sep), t)
  {
    var joined := Join(tags, sep);
    if tags[0] == t {
      assert joined[0..|t|] == t;
      assert OccursAt(joined, t, 0);
    } else {
      JoinContainsTags(tags[1..], sep, t);
      var rest := Join(tags[1..], sep);
      var i :| 0 <= i <= |rest| - |t| && OccursAt(rest, t, i);
      var off := |tags[0]| + |sep|;
      assert joined == tags[0] + sep + rest;
      assert joined[off + i..off + i + |t|] == rest[i..i + |t|];
      assert OccursAt(joined, t, off + i);
    }
  }

  /** The lowered query `q` occurs in the lowered name or in the lowered space-joined tags. */
  predicate MatchesQuery(d: Designer, q: string)
    ensures q == "" ==> MatchesQuery(d, q)
  {
    assert q == "" ==> OccursAt(Lower(d.name), q, 0);
    Contains(Lower(d.name), q) || Contains(Lower(Join(d.tags, " ")), q)
  }

  /** Lowering both sides keeps an occurrence: `q` in `s` gives `Lower(q)` in `Lower(s)`. */
  lemma LowerKeepsContains(s: string, q: string)
    requires Contains(s, q)
    ensures Contains(Lower(s), Lower(q))
  {
    var i :| 0 <= i <= |s| - |q| && OccursAt(s, q, i);
    assert Lower(s)[i..i + |q|] == Lower(q);
    assert OccursAt(Lower(s), Lower(q), i);
  }

  /** A query equal to one of a designer's tags, lowered as `render` lowers it, matches that designer. */
  lemma TagQueryMatches(d: Designer, t: string)
    requires t in d.tags
    ensures MatchesQuery(d, Lower(t))
  {
    JoinContainsTags(d.tags, " ", t);
    LowerKeepsContains(Join(d.tags, " "), t);
  }

  /** `d.decades.includes(dec)`. */
  predicate InDecade(d: Designer, dec: string) {
    dec in d.decades
  }

  /**
   * `render`: keep the designers that match the trimmed, lowered query (when
   * it is not empty) and that list the chosen decade (when one is chosen).
   */
  function Render(list: seq<Designer>, query: string, dec: string): (r: seq<Designer>)
    ensures |r| <= |list|
    ensures forall d :: d in r ==> d in list && (dec == "" || dec in d.decades)
  {
    var q := Lower(Trim(query));
    var byText := if q != "" then Filter(list, d => MatchesQuery(d, q)) else list;
    if dec != "" then Filter(byText, d => InDecade(d, dec)) else byText
  }

  /** What the shown list keeps: `d` passes the query and the decade filters. */
  predicate Shown(d: Designer, q: string, dec: string) {
    (q == "" || MatchesQuery(d, q)) && (dec == "" || InDecade(d, dec))
  }

  /**
   * The rendered list is the sub-list, in catalogue order, of exactly the
   * designers that pass both filters; with no query and no decade it is the
   * whole catalogue.
   */
  lemma RenderSpec(list: seq<Designer>, query: string, dec: string)
    ensures Render(list, query, dec) == Filter(list, d => Shown(d, Lower(Trim(query)), dec))
    ensures IsSubsequence(Render(list, query, dec), list)
    ensures forall d :: d in Render(list, query, dec) <==> d in list && Shown(d, Lower(Trim(query)), dec)
    ensures Trim(query) == "" && dec == "" ==> Render(list, query, dec) == list
  {
    var q := Lower(Trim(query));
    var shown := d => Shown(d, q, dec);
    var byText := d => MatchesQuery(d, q);
    var byDecade := d => InDecade(d, dec);
    if q != "" && dec != "" {
      FilterTwice(list, byText, byDecade, shown);
    } else if q != "" {
      FilterSame(list, byText, shown);
    } else if dec != "" {
      FilterSame(list, byDecade, shown);
    } else {
      FilterAll(list, shown);
    }
    FilterIsSubsequence(list, shown);
  }

  /** Searching for a tag, with no decade chosen, shows every designer that carries the tag. */
  lemma TagSearchShows(list: seq<Designer>, d: Designer, t: string)
    requires d in list && t in d.tags && Trim(t) == t
    ensures d in Render(list, t, "")
  {
    RenderSpec(list, t, "");
    TagQueryMatches(d, t);
  }

  /** `state.favorites`: the ids of the favourite designers. */
  class Favorites {
    var ids: set<string>

    /** `new Set(saved)`, from the saved list of ids. */
    constructor (saved: seq<string>)
      ensures ids == set x | x in saved
    {
      ids := set x | x in saved;
    }

    /** The star button: delete the id when it is a favourite, add it otherwise. */
    method Toggle(id: string)
      modifies this
      ensures ids == Toggled(old(ids), id)
    {
      if id in ids {
        ids := ids - {id};
      } else {
        ids := ids + {id};
      }
    }
  }

  /** The favourites after toggling `id`: its membership flips and nothing else changes. */
  function Toggled(ids: set<string>, id: string): (r: set<string>)
    ensures id in r <==> id !in ids
    ensures forall x :: x != id ==> (x in r <==> x in ids)
  {
    if id in ids then ids - {id} else ids + {id}
  }

  /** Toggling the same id twice restores the favourites. */
  lemma ToggleTwice(ids: set<string>, id: string)
    ensures Toggled(Toggled(ids, id), id) == ids
  {
  }
}
