/**
 * Designer records: how one query binding becomes a record, and how the list
 * is de-duplicated by id when the catalogue is loaded.
 */
module Designers {
  import opened Wrappers

  /** One catalogue entry. Display-only fields (birth, death, movement, occupation) are not modelled. */
  datatype Designer = Designer(
    id: string,
    name: string,
    img: Option<string>,
    decades: seq<string>,
    tags: seq<string>)

  /** One row of the query answer; a missing or empty value is `None` or `Some("")`. */
  datatype Binding = Binding(
    person: string,
    personLabel: Option<string>,
    image: Option<string>,
    birth: Option<string>,
    movementLabel: Option<string>,
    occupationLabel: Option<string>)

  /** `x?.value || null`: the empty string is falsy and becomes `null`. */
  function Truthy(x: Option<string>): (r: Option<string>)
    ensures r.Some? <==> x.Some? && x.value != ""
    ensures r.Some? ==> r == x
  {
    if x.Some? && x.value != "" then x else None
  }

  /** `uri.split('/').pop()`: the text after the last '/', or all of `uri` when it has none. */
  function LastSegment(uri: string): (id: string)
    ensures '/' !in id
    ensures |id| <= |uri| && uri[|uri| - |id|..] == id
    ensures |id| < |uri| ==> uri[|uri| - |id| - 1] == '/'
  {
    if uri == [] then []
    else if uri[|uri| - 1] == '/' then []
    else LastSegment(uri[..|uri| - 1]) + [uri[|uri| - 1]]
  }

  /** An entity uri `base/id` yields `id` back: `LastSegment` undoes appending a segment. */
  lemma {:induction false} LastSegmentOfEntityUri(base: string, id: string)
    requires '/' !in id
    ensures LastSegment(base + "/" + id) == id
    decreases |id|
  {
    var uri := base + "/" + id;
    if id != [] {
      var init := id[..|id| - 1];
      assert uri[..|uri| - 1] == base + "/" + init;
      assert '/' !in init by {
        assert forall c :: c in init ==> c in id;
      }
      LastSegmentOfEntityUri(base, init);
      assert id == init + [id[|id| - 1]];
    }
  }

  /** `[movement, occupation].filter(Boolean)`. */
  function TagsOf(movement: Option<string>, occupation: Option<string>): (tags: seq<string>)
    ensures |tags| == (if Truthy(movement).Some? then 1 else 0) + (if Truthy(occupation).Some? then 1 else 0)
    ensures forall t :: t in tags ==> t != "" && (Some(t) == movement || Some(t) == occupation)
    ensures Truthy(movement).Some? ==> tags[0] == movement.value
    ensures Truthy(occupation).Some? ==> tags[|tags| - 1] == occupation.value
  {
    (if Truthy(movement).Some? then [movement.value] else [])
    + (if Truthy(occupation).Some? then [occupation.value] else [])
  }

  /**
   * The record built from one binding. Date parsing is the host's: `decadeOf`
   * maps a birth date to its decade label.
   */
  function ShapeDesigner(b: Binding, decadeOf: string -> string): (d: Designer)
    ensures d.id == LastSegment(b.person) && '/' !in d.id
    ensures d.name == (if Truthy(b.personLabel).Some? then b.personLabel.value else d.id)
    ensures d.img == Truthy(b.image)
    ensures d.decades == (if Truthy(b.birth).Some? then [decadeOf(b.birth.value)] else [])
    ensures d.tags == TagsOf(b.movementLabel, b.occupationLabel)
  {
    var id := LastSegment(b.person);
    var personLabel := Truthy(b.personLabel);
    var birth := Truthy(b.birth);
    Designer(
      id,
      if personLabel.Some? then personLabel.value else id,
      Truthy(b.image),
      if birth.Some? then [decadeOf(birth.value)] else [],
      TagsOf(b.movementLabel, b.occupationLabel))
  }

  // ---------------------------------------------------------------------------
  // De-duplication by id, as the code runs it.
  //
  // `dedup` is a Map, but records are stored with `dedup[key] = d`, which sets
  // a plain property of the Map object and never a Map entry. `dedup.has(key)`
  // looks at the entries only, so it is always false: the merge branch never
  // runs and a later record with an id replaces the earlier one outright.
  // ---------------------------------------------------------------------------

  function Init<T>(s: seq<T>): seq<T>
    requires s != []
  {
    s[..|s| - 1]
  }

  /** For each id, the last record in `list` that carries it. */
  function LastById(list: seq<Designer>): (m: map<string, Designer>)
    ensures forall id :: id in m <==> exists i :: 0 <= i < |list| && list[i].id == id
  {
    if list == [] then map[]
    else
      var m := LastById(Init(list));
      assert forall i :: 0 <= i < |list| - 1 ==> Init(list)[i] == list[i];
      m[list[|list| - 1].id := list[|list| - 1]]
  }

  /** `list[i]` is the last record of `list` whose id is `id`. */
  ghost predicate LastWithId(list: seq<Designer>, id: string, i: int) {
    0 <= i < |list| && list[i].id == id && forall j :: i < j < |list| ==> list[j].id != id
  }

  /** As written, the entry kept for `id` is the last record with that id, whole. */
  lemma {:induction false} LastByIdKeepsLast(list: seq<Designer>, id: string)
    requires id in LastById(list)
    ensures exists i :: LastWithId(list, id, i) && LastById(list)[id] == list[i]
  {
    var init := Init(list);
    var d := list[|list| - 1];
    if d.id == id {
      assert LastWithId(list, id, |list| - 1);
    } else {
      assert forall i :: 0 <= i < |list| - 1 ==> init[i] == list[i];
      LastByIdKeepsLast(init, id);
      var i :| LastWithId(init, id, i) && LastById(init)[id] == init[i];
      assert LastWithId(list, id, i);
    }
  }

  /** The tags the dead merge branch would have given; it is never reached as written. */
  function MergedTags(cur: Designer, d: Designer): seq<string> {
    Distinct(cur.tags + d.tags)
  }

  /** The de-duplication loop of the catalogue bootstrap, as written. */
  method DedupAsWritten(list: seq<Designer>) returns (props: map<string, Designer>)
    ensures props == LastById(list)
  {
    var entries: map<string, Designer> := map[];   // the Map's entries: nothing writes them
    props := map[];                                // the object's own properties
    for i := 0 to |list|
      invariant entries == map[]
      invariant props == LastById(list[..i])
    {
      var d := list[i];
      var key := d.id;
      assert list[..i + 1][..i] == list[..i];
      if key !in entries {
        props := props[key := d];
      } else {
        assert false;
      }
    }
    assert list[..|list|] == list;
  }

  /** Two records with one id and different tags: as written, the earlier tags are lost. */
  lemma DedupDropsEarlierTags()
    ensures var first := Designer("Q1", "Gio Ponti", None, [], ["Razionalismo"]);
            var second := Designer("Q1", "Gio Ponti", None, [], ["architetto"]);
            var m := LastById([first, second]);
            m["Q1"].tags == ["architetto"] && "Razionalismo" !in m["Q1"].tags
              && "Razionalismo" in MergeById([first, second])["Q1"].tags
  {
    var first := Designer("Q1", "Gio Ponti", None, [], ["Razionalismo"]);
    var second := Designer("Q1", "Gio Ponti", None, [], ["architetto"]);
    assert Init([first, second]) == [first];
    assert Init([first]) == [];
    assert MergeById([first]) == map["Q1" := first];
    assert Distinct(["Razionalismo"] + ["architetto"]) == ["Razionalismo", "architetto"] by {
      assert Init(["Razionalismo", "architetto"]) == ["Razionalismo"];
      assert Init(["Razionalismo"]) == [];
    }
  }

  // ---------------------------------------------------------------------------
  // De-duplication as evidently intended: Map entries are read and written with
  // `has`/`get`/`set`, so a repeated id merges its tags into the first record.
  // ---------------------------------------------------------------------------

  /** `Array.from(new Set(s))`: each value of `s`, once. */
  function Distinct(s: seq<string>): (r: seq<string>)
    ensures forall x :: x in r <==> x in s
    ensures forall i, j :: 0 <= i < j < |r| ==> r[i] != r[j]
  {
    if s == [] then []
    else
      var r := Distinct(Init(s));
      assert forall x :: x in s <==> x in Init(s) || x == s[|s| - 1];
      if s[|s| - 1] in r then r else r + [s[|s| - 1]]
  }

  /** The position of the first occurrence of `x` in `s`. */
  function IndexOf(s: seq<string>, x: string): (k: nat)
    requires x in s
    ensures k < |s| && s[k] == x && x !in s[..k]
  {
    if s[0] == x then 0
    else
      var k := IndexOf(s[1..], x);
      assert s[..k + 1] == [s[0]] + s[1..][..k];
      k + 1
  }

  /** `Distinct` keeps the values in the order of their first occurrence in `s`. */
  lemma {:induction false} DistinctKeepsFirstOrder(s: seq<string>)
    ensures forall i, j :: 0 <= i < j < |Distinct(s)| ==> IndexOf(s, Distinct(s)[i]) < IndexOf(s, Distinct(s)[j])
  {
    if s != [] {
      var init := Init(s);
      var last := s[|s| - 1];
      DistinctKeepsFirstOrder(init);
      forall x | x in init
        ensures IndexOf(s, x) == IndexOf(init, x)
      {
        var k, k' := IndexOf(s, x), IndexOf(init, x);
        assert init[..k'] == s[..k'];
      }
      if last !in init {
        assert s[..|s| - 1] == init;
        assert IndexOf(s, last) == |s| - 1;
      }
    }
  }

  /** For each id, the first record with it, carrying the tags of every record with that id. */
  function MergeById(list: seq<Designer>): (m: map<string, Designer>)
    ensures forall id :: id in m <==> exists i :: 0 <= i < |list| && list[i].id == id
  {
    if list == [] then map[]
    else
      var m := MergeById(Init(list));
      var d := list[|list| - 1];
      assert forall i :: 0 <= i < |list| - 1 ==> Init(list)[i] == list[i];
      if d.id in m then m[d.id := m[d.id].(tags := Distinct(m[d.id].tags + d.tags))]
      else m[d.id := d]
  }

  /** `list[i]` is the first record of `list` whose id is `id`. */
  ghost predicate FirstWithId(list: seq<Designer>, id: string, i: int) {
    0 <= i < |list| && list[i].id == id && forall j :: 0 <= j < i ==> list[j].id != id
  }

  /** Some record of `list` with id `id` carries tag `t`. */
  ghost predicate TaggedBy(list: seq<Designer>, id: string, t: string) {
    exists j :: 0 <= j < |list| && list[j].id == id && t in list[j].tags
  }

  /** The merged record for `id` is the first record with that id, apart from its tags. */
  lemma {:induction false} MergeByIdKeepsFirst(list: seq<Designer>, id: string)
    requires id in MergeById(list)
    ensures exists i :: FirstWithId(list, id, i) && MergeById(list)[id] == list[i].(tags := MergeById(list)[id].tags)
  {
    var init := Init(list);
    var d := list[|list| - 1];
    assert forall i :: 0 <= i < |list| - 1 ==> init[i] == list[i];
    if id in MergeById(init) {
      MergeByIdKeepsFirst(init, id);
      var i :| FirstWithId(init, id, i) && MergeById(init)[id] == init[i].(tags := MergeById(init)[id].tags);
      assert FirstWithId(list, id, i);
    } else {
      assert FirstWithId(list, id, |list| - 1);
    }
  }

  /** The merged record for `id` carries exactly the tags of the records with that id. */
  lemma {:induction false} MergeByIdUnitesTags(list: seq<Designer>, id: string)
    requires id in MergeById(list)
    ensures forall t :: t in MergeById(list)[id].tags <==> TaggedBy(list, id, t)
  {
    var init := Init(list);
    var d := list[|list| - 1];
    assert forall i :: 0 <= i < |list| - 1 ==> init[i] == list[i];
    forall t ensures TaggedBy(list, id, t) <==> TaggedBy(init, id, t) || (d.id == id && t in d.tags) {
      if TaggedBy(list, id, t) {
        var j :| 0 <= j < |list| && list[j].id == id && t in list[j].tags;
        if j < |list| - 1 {
          assert init[j].id == id && t in init[j].tags;
        }
      }
    }
    if id in MergeById(init) {
      MergeByIdUnitesTags(init, id);
    } else {
      assert forall t :: !TaggedBy(init, id, t);
    }
  }

  /** The loop with `dedup.has`, `dedup.get` and `dedup.set` on the Map's entries. */
  method DedupMerged(list: seq<Designer>) returns (dedup: map<string, Designer>)
    ensures dedup == MergeById(list)
  {
    dedup := map[];
    for i := 0 to |list|
      invariant dedup == MergeById(list[..i])
    {
      var d := list[i];
      var key := d.id;
      assert list[..i + 1][..i] == list[..i];
      if key !in dedup {
        dedup := dedup[key := d];
      } else {
        var cur := dedup[key];
        cur := cur.(tags := MergedTags(cur, d));
        dedup := dedup[key := cur];
      }
    }
    assert list[..|list|] == list;
  }
}
