/** The search policy of the room finder's main view: the category list offered in the filter
    dropdown, and the search that runs whenever the query, the selected category or the data
    change. */
module App {
  import opened Wrappers
  import opened JsArray
  import opened JsString
  import opened Collation
  import opened Rooms

  /** The separator of the alias and occupant lists. */
  const Pipe: Pattern := Literal("|")

  /** Trimmed and lower-cased: the form in which the query and the record fields are compared. */
  function Normalize(s: string): (r: string)
    ensures |r| == |Trim(s)|
  {
    Lower(Trim(s))
  }

  /** `r` belongs to the category `selected` of the filter: its trimmed category equals it. */
  predicate InCategory(selected: string, r: Room)
  {
    Trim(r.category) == selected
  }

  /** `c` is a category some record carries: non-blank once trimmed. */
  ghost predicate IsCategoryOf(rooms: seq<Room>, c: string)
  {
    c != "" && exists r :: r in rooms && Trim(r.category) == c
  }

  /** The entries of the category dropdown: each trimmed category that is not blank, once,
      sorted. */
  method Categories(rooms: seq<Room>) returns (cats: seq<string>)
    ensures forall c :: c in cats <==> IsCategoryOf(rooms, c)
    ensures forall c :: c in cats ==> IsTrimmed(c)
    ensures StrictlySorted(cats)
  {
    // The source's `Set`, which keeps its elements in insertion order.
    var found: seq<string> := [];
    for i := 0 to |rooms|
      invariant forall c :: c in found <==> IsCategoryOf(rooms[..i], c)
      invariant forall c :: c in found ==> IsTrimmed(c)
      invariant Distinct(found)
    {
      var name := Trim(rooms[i].category);
      if name != "" && name !in found {
        found := found + [name];
      }
      CategoryOfExtended(rooms, i);
    }
    assert rooms[..|rooms|] == rooms;
    cats := Sort(found);
    SortSorted(found);
    forall c ensures c in cats <==> c in found {
      assert c in cats <==> c in multiset(cats);
      assert c in found <==> c in multiset(found);
    }
  }

  lemma CategoryOfExtended(rooms: seq<Room>, i: nat)
    requires i < |rooms|
    ensures forall c :: IsCategoryOf(rooms[..i + 1], c) <==>
              IsCategoryOf(rooms[..i], c) || (c != "" && c == Trim(rooms[i].category))
  {
    assert rooms[..i + 1] == rooms[..i] + [rooms[i]];
  }

  /** The records the search runs on: all of them with no category selected, otherwise those
      of the selected category, in dataset order. */
  function BaseSet(rooms: seq<Room>, selected: string): (base: seq<Room>)
    ensures selected == "" ==> base == rooms
    ensures selected != "" ==> forall r :: r in base <==> r in rooms && InCategory(selected, r)
    ensures selected != "" ==> forall r {:trigger multiset(base)[r]} ::
              multiset(base)[r] == if InCategory(selected, r) then multiset(rooms)[r] else 0
    ensures IsSubsequence(base, rooms)
  {
    if selected == "" then SubsequenceOfSelf(rooms); rooms
    else Filter((r: Room) => InCategory(selected, r), rooms)
  }

  /** Choosing an entry of the category list never leaves the base set empty. */
  lemma ListedCategoryHasRooms(rooms: seq<Room>, c: string)
    requires IsCategoryOf(rooms, c)
    ensures BaseSet(rooms, c) != []
  {
    var r :| r in rooms && Trim(r.category) == c;
    assert r in BaseSet(rooms, c);
  }

  /** The non-blank, normalized entries of a `|`-separated list. */
  function Tokens(list: string): (tokens: seq<string>)
    ensures forall t :: t in tokens <==> t != "" && exists piece :: piece in Split(list, Pipe) && Normalize(piece) == t
  {
    var normalized := Map(Normalize, Split(list, Pipe));
    forall t ensures t in normalized <==> exists piece :: piece in Split(list, Pipe) && Normalize(piece) == t {
      MapMembers(Normalize, Split(list, Pipe), t);
    }
    Filter((t: string) => t != "", normalized)
  }

  /** The exact-match test for a normalized query `q`: the record's code, one of its aliases or
      one of its occupants equals `q`. */
  predicate ExactMatch(room: Room, q: string)
  {
    Normalize(room.roomId) == q || q in Tokens(room.aliases) || q in Tokens(OrEmpty(room.person))
  }

  /** What an exact match means, for the non-empty query the search uses it with: `q` is the
      normalized code, or the normalized text of one of the `|`-separated alias or occupant
      entries (a missing occupant list counts as empty). */
  lemma ExactMatchMeaning(room: Room, q: string)
    requires q != ""
    ensures ExactMatch(room, q) <==>
      || Normalize(room.roomId) == q
      || (exists a :: a in Split(room.aliases, Pipe) && Normalize(a) == q)
      || (exists p :: p in Split(OrEmpty(room.person), Pipe) && Normalize(p) == q)
  {
  }

  /** The outcome of a search: the records to list, and the identifiers to badge as exact
      matches (`None` when the results did not come from the exact-match pass). */
  datatype SearchResult = SearchResult(results: seq<Room>, exactIds: Option<set<string>>)

  /** The identifiers of a list of records. */
  function Ids(rooms: seq<Room>): (ids: set<string>)
    ensures forall id :: id in ids <==> exists r :: r in rooms && r.id == id
  {
    set r | r in rooms :: r.id
  }

  /** The base records that match a normalized query exactly, in base order. */
  function ExactMatches(base: seq<Room>, q: string): (exact: seq<Room>)
    ensures forall r :: r in exact <==> r in base && ExactMatch(r, q)
    ensures exact == [] <==> forall r :: r in base ==> !ExactMatch(r, q)
    ensures IsSubsequence(exact, base)
    ensures forall r {:trigger multiset(exact)[r]} :: multiset(exact)[r] == if ExactMatch(r, q) then multiset(base)[r] else 0
  {
    Filter((r: Room) => ExactMatch(r, q), base)
  }

  /** The fuzzy hits whose identifier is among `ids`, in hit order. */
  function HitsWithin(hits: seq<Room>, ids: set<string>): (kept: seq<Room>)
    ensures forall r :: r in kept <==> r in hits && r.id in ids
    ensures IsSubsequence(kept, hits)
    ensures forall r {:trigger multiset(kept)[r]} :: multiset(kept)[r] == if r.id in ids then multiset(hits)[r] else 0
  {
    Filter((r: Room) => r.id in ids, hits)
  }

  /** One run of the search effect. `fuzzyHits` stands for what the fuzzy index returns for the
      trimmed query over all records, best first. */
  function Search(rooms: seq<Room>, selected: string, query: string, fuzzyHits: seq<Room>): (out: SearchResult)
    ensures forall r :: r in out.results ==> r.id in Ids(BaseSet(rooms, selected))
  {
    var trimmed := Trim(query);
    var base := BaseSet(rooms, selected);
    if trimmed == "" then SearchResult(base, None)
    else
      var q := Lower(trimmed);
      var exact := ExactMatches(base, q);
      if |exact| > 0 then SearchResult(exact, Some(Ids(exact)))
      else SearchResult(HitsWithin(fuzzyHits, Ids(base)), None)
  }

  /** A blank query lists the whole base set, in dataset order, with nothing badged. */
  lemma SearchBlankQuery(rooms: seq<Room>, selected: string, query: string, fuzzyHits: seq<Room>)
    requires AllSpace(query)
    ensures Search(rooms, selected, query, fuzzyHits) == SearchResult(BaseSet(rooms, selected), None)
  {
  }

  /** When some base record matches exactly, the results are exactly the matching base records,
      in base order, all of them badged, and the fuzzy hits play no part. */
  lemma SearchExactWins(rooms: seq<Room>, selected: string, query: string, fuzzyHits: seq<Room>)
    requires Normalize(query) != ""
    requires exists b :: b in BaseSet(rooms, selected) && ExactMatch(b, Normalize(query))
    ensures var out := Search(rooms, selected, query, fuzzyHits);
            var base := BaseSet(rooms, selected);
            && (forall r :: r in out.results <==> r in base && ExactMatch(r, Normalize(query)))
            && IsSubsequence(out.results, base)
            && (forall r {:trigger multiset(out.results)[r]} ::
                  multiset(out.results)[r] == if ExactMatch(r, Normalize(query)) then multiset(base)[r] else 0)
            && out.exactIds == Some(Ids(out.results))
            && (forall otherHits :: Search(rooms, selected, query, otherHits) == out)
  {
    var exact := ExactMatches(BaseSet(rooms, selected), Normalize(query));
    forall otherHits ensures Search(rooms, selected, query, otherHits) == SearchResult(exact, Some(Ids(exact))) {
      ExactResult(rooms, selected, query, otherHits);
    }
  }

  /** The search output when some base record matches exactly. */
  lemma ExactResult(rooms: seq<Room>, selected: string, query: string, fuzzyHits: seq<Room>)
    requires Normalize(query) != ""
    requires exists b :: b in BaseSet(rooms, selected) && ExactMatch(b, Normalize(query))
    ensures var exact := ExactMatches(BaseSet(rooms, selected), Normalize(query));
            Search(rooms, selected, query, fuzzyHits) == SearchResult(exact, Some(Ids(exact)))
  {
    assert ExactMatches(BaseSet(rooms, selected), Normalize(query)) != [];
  }

  /** With no exact match in the base set, the results are the fuzzy hits whose identifier is
      that of a base record, in the order the fuzzy index ranked them, and nothing is badged. */
  lemma SearchFuzzyFallback(rooms: seq<Room>, selected: string, query: string, fuzzyHits: seq<Room>)
    requires Normalize(query) != ""
    requires forall b :: b in BaseSet(rooms, selected) ==> !ExactMatch(b, Normalize(query))
    ensures var out := Search(rooms, selected, query, fuzzyHits);
            var baseIds := Ids(BaseSet(rooms, selected));
            && out.exactIds == None
            && out.results == HitsWithin(fuzzyHits, baseIds)
            && (forall r :: r in out.results <==> r in fuzzyHits && r.id in baseIds)
            && IsSubsequence(out.results, fuzzyHits)
            && (forall r {:trigger multiset(out.results)[r]} ::
                  multiset(out.results)[r] == if r.id in baseIds then multiset(fuzzyHits)[r] else 0)
  {
    var base := BaseSet(rooms, selected);
    assert ExactMatches(base, Normalize(query)) == [];
    assert Search(rooms, selected, query, fuzzyHits) == SearchResult(HitsWithin(fuzzyHits, Ids(base)), None);
  }

  /** No two records share an identifier. */
  predicate UniqueIds(rooms: seq<Room>)
  {
    forall i, j :: 0 <= i < j < |rooms| ==> rooms[i].id != rooms[j].id
  }

  lemma SameIdSameRoom(rooms: seq<Room>, a: Room, b: Room)
    requires UniqueIds(rooms) && a in rooms && b in rooms && a.id == b.id
    ensures a == b
  {
    var i :| 0 <= i < |rooms| && rooms[i] == a;
    var j :| 0 <= j < |rooms| && rooms[j] == b;
  }

  /** With a category selected, every listed record, exact or fuzzy, belongs to it, as long as
      identifiers are unique and the fuzzy index only returns records of the dataset. A record
      of another category is never listed, even when its code equals the query. */
  lemma SearchStaysInCategory(rooms: seq<Room>, selected: string, query: string, fuzzyHits: seq<Room>)
    requires UniqueIds(rooms)
    requires forall h :: h in fuzzyHits ==> h in rooms
    requires selected != ""
    ensures forall r :: r in Search(rooms, selected, query, fuzzyHits).results ==>
              r in rooms && InCategory(selected, r)
  {
    var base := BaseSet(rooms, selected);
    var trimmed := Trim(query);
    if trimmed != "" && ExactMatches(base, Lower(trimmed)) == [] {
      forall r | r in HitsWithin(fuzzyHits, Ids(base)) ensures r in base {
        var b :| b in base && b.id == r.id;
        SameIdSameRoom(rooms, r, b);
      }
    }
  }
}
