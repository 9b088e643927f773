// The registry explorer page (StaticRoot/explorer.js): splitting an object
// link into its type and name, the line-break decoration of attribute
// values, and the search over the index of object names that decides what
// the page shows.
module Explorer {

  import opened Wrappers
  import opened Text
  import opened Seqs
  import Registry

  // ---------------------------------------------------------------------
  // Links

  /** An index clamped to 0..n, as JavaScript's substring clamps its arguments. */
  function Clamp(i: int, n: nat): (c: nat)
    ensures c <= n
    ensures 0 <= i <= n ==> c == i
  {
    if i < 0 then 0 else if i > n then n else i
  }

  /** JavaScript String.prototype.substring: both ends clamped to the string, swapped when reversed. */
  function Substring(s: String, start: int, end: int): (r: String)
    ensures |r| <= |s|
    ensures 0 <= start <= end <= |s| ==> r == s[start..end]
  {
    var a, b := Clamp(start, |s|), Clamp(end, |s|);
    if a <= b then s[a..b] else s[b..a]
  }

  /** The rtype computed value of reg-object: the link up to its first '/'. */
  function LinkType(link: String): String
  {
    Substring(link, 0, IndexOf(link, '/'))
  }

  /** The obj computed value of reg-object: the link after its first '/'. */
  function LinkObject(link: String): String
  {
    Substring(link, IndexOf(link, '/') + 1, |link|)
  }

  /**
   * A link with a '/' is its type, the '/', and its name, and the type
   * holds no '/'; a link without one has the empty type and is all name.
   */
  lemma LinkSplit(link: String)
    ensures '/' in link ==> LinkType(link) + "/" + LinkObject(link) == link && '/' !in LinkType(link)
    ensures '/' !in link ==> LinkType(link) == "" && LinkObject(link) == link
  {
    var ix := IndexOf(link, '/');
    if ix != -1 {
      assert link == link[..ix] + [link[ix]] + link[ix + 1..];
    }
  }

  /** The link of an object reference "type/name" splits back into the type and the name. */
  lemma LinkOfPath(t: String, o: String)
    requires '/' !in t
    ensures LinkType(Registry.MakePath(t, o)) == t && LinkObject(Registry.MakePath(t, o)) == o
  {
    var p := Registry.MakePath(t, o);
    Registry.MakePathSplit(t, o);
    assert LinkType(p) == p[0..|t|] == t;
    assert LinkObject(p) == p[|t| + 1..|p|] == o;
  }

  // ---------------------------------------------------------------------
  // Decorated attribute values

  /** A value ending in a newline gets a second one, so that the blank last line shows. */
  function Doubled(c: String): String
  {
    if |c| > 0 && c[|c| - 1] == '\n' then c + "\n" else c
  }

  /** Every newline replaced by a line break tag (replace(/\n/g, "<br/>")). */
  function Breaks(c: String): (r: String)
    ensures '\n' !in r
    ensures '\n' !in c ==> r == c
  {
    if |c| == 0 then []
    else (if c[0] == '\n' then "<br/>" else [c[0]]) + Breaks(c[1..])
  }

  /** The decorated computed value of reg-attribute, before anchorme adds links. */
  function Decorated(c: String): String
  {
    Breaks(Doubled(c))
  }

  /** Breaks works character by character, so it distributes over concatenation. */
  lemma {:induction false} BreaksAppend(a: String, b: String)
    ensures Breaks(a + b) == Breaks(a) + Breaks(b)
    decreases |a|
  {
    if |a| > 0 {
      assert (a + b)[0] == a[0] && (a + b)[1..] == a[1..] + b;
      BreaksAppend(a[1..], b);
      var head: String := if a[0] == '\n' then "<br/>" else [a[0]];
      assert Breaks(a + b) == head + Breaks(a[1..] + b);
      AppendAssoc(head, Breaks(a[1..]), Breaks(b));
    } else {
      assert a + b == b;
    }
  }

  /** Line break tags turned back into newlines: the inverse of Breaks on text without '<'. */
  function Unbreak(d: String): String
    decreases |d|
  {
    if |d| == 0 then []
    else if HasPrefix(d, "<br/>") then "\n" + Unbreak(d[5..])
    else [d[0]] + Unbreak(d[1..])
  }

  /** Text without '<' is recovered from its breaks: no newline is lost or invented. */
  lemma {:induction false} UnbreakBreaks(c: String)
    requires '<' !in c
    ensures Unbreak(Breaks(c)) == c
    decreases |c|
  {
    if |c| > 0 {
      assert '<' !in c[1..] by {
        assert forall x :: x in c[1..] ==> x in c;
      }
      UnbreakBreaks(c[1..]);
      var head: String := if c[0] == '\n' then "<br/>" else [c[0]];
      assert Breaks(c) == head + Breaks(c[1..]);
      if c[0] == '\n' {
        assert HasPrefix(Breaks(c), "<br/>");
        assert Breaks(c)[5..] == Breaks(c[1..]);
      } else {
        assert Breaks(c)[0] == c[0] && c[0] != '<';
        assert !HasPrefix(Breaks(c), "<br/>");
        assert Breaks(c)[1..] == Breaks(c[1..]);
      }
    }
  }

  /** Two newlines become two line breaks. */
  lemma BreaksNewlines()
    ensures Breaks("\n\n") == "<br/><br/>"
  {
    assert "\n\n"[1..][1..] == [];
  }

  /** A value ending in a newline ends in two line breaks once decorated; any other loses only its newlines. */
  lemma DecoratedTrailing(c: String)
    ensures |c| > 0 && c[|c| - 1] == '\n' ==> Decorated(c) == Breaks(c[..|c| - 1]) + "<br/><br/>"
    ensures !(|c| > 0 && c[|c| - 1] == '\n') ==> Decorated(c) == Breaks(c)
    ensures '\n' !in Decorated(c)
  {
    if |c| > 0 && c[|c| - 1] == '\n' {
      var front := c[..|c| - 1];
      assert Doubled(c) == front + "\n\n" by {
        assert c == front + [c[|c| - 1]];
        AppendAssoc(front, "\n", "\n");
      }
      BreaksAppend(front, "\n\n");
      BreaksNewlines();
    }
  }

  // ---------------------------------------------------------------------
  // Search

  /** One search result: a type and the name of one of its objects. */
  datatype Hit = Hit(rtype: String, name: String)

  /** The first object whose lower-cased name equals the term, or |objects| when none does. */
  function FirstExact(objects: seq<String>, term: String): (k: nat)
    ensures k <= |objects|
    ensures k < |objects| ==> Lower(objects[k]) == term
    ensures forall i :: 0 <= i < k ==> Lower(objects[i]) != term
  {
    if |objects| == 0 then 0
    else if Lower(objects[0]) == term then 0
    else 1 + FirstExact(objects[1..], term)
  }

  /** The objects whose lower-cased name contains the term, in order, as hits of rtype. */
  function Partial(objects: seq<String>, rtype: String, term: String): (r: seq<Hit>)
    ensures forall h :: h in r <==> h.rtype == rtype && h.name in objects && Contains(Lower(h.name), term)
  {
    if |objects| == 0 then []
    else
      var last := objects[|objects| - 1];
      assert objects == objects[..|objects| - 1] + [last];
      Partial(objects[..|objects| - 1], rtype, term) + (if Contains(Lower(last), term) then [Hit(rtype, last)] else [])
  }

  /** What matchObjects returns: the first exact match alone, or else every partial match. */
  function Matches(objects: seq<String>, rtype: String, term: String): seq<Hit>
  {
    var k := FirstExact(objects, term);
    if k < |objects| then [Hit(rtype, objects[k])] else Partial(objects, rtype, term)
  }

  /** Every string contains itself. */
  lemma ContainsSelf(s: String)
    ensures Contains(s, s)
  {
    assert s[..|s|] == s;
  }

  /** Each hit is an object of rtype whose lower-cased name contains the term. */
  lemma MatchesSound(objects: seq<String>, rtype: String, term: String, h: Hit)
    requires h in Matches(objects, rtype, term)
    ensures h.rtype == rtype && h.name in objects && Contains(Lower(h.name), term)
  {
    var k := FirstExact(objects, term);
    if k < |objects| {
      ContainsSelf(term);
    }
  }

  /**
   * An exact match short-circuits: the result is that object alone, the
   * first one whose lower-cased name is the term, and earlier partial
   * matches are dropped.  Without one, every partial match is a hit.
   */
  lemma MatchesExact(objects: seq<String>, rtype: String, term: String, k: nat)
    requires k < |objects| && Lower(objects[k]) == term
    requires forall i :: 0 <= i < k ==> Lower(objects[i]) != term
    ensures Matches(objects, rtype, term) == [Hit(rtype, objects[k])]
  {
    var f := FirstExact(objects, term);
    assert f <= k;
  }

  lemma MatchesPartial(objects: seq<String>, rtype: String, term: String, h: Hit)
    requires forall i :: 0 <= i < |objects| ==> Lower(objects[i]) != term
    ensures h in Matches(objects, rtype, term) <==> h.rtype == rtype && h.name in objects && Contains(Lower(h.name), term)
  {
    var f := FirstExact(objects, term);
    assert f == |objects|;
  }

  /** The hits for the term in the named type of the index. */
  function MatchesIn(index: map<String, seq<String>>, term: String): String --> seq<Hit>
  {
    t requires t in index => Matches(index[t], t, term)
  }

  /**
   * What searchFilter returns for a search: with a '/', the matches of the
   * text after it among the type named before it (none when the index has
   * no such type); otherwise the matches in every type, in the index's
   * order.  The search is lower-cased first.
   */
  function SearchHits(index: map<String, seq<String>>, types: seq<String>, search: String): seq<Hit>
    requires forall t :: t in types ==> t in index
  {
    var term := Lower(search);
    var slash := IndexOf(term, '/');
    if slash != -1 then
      var rtype := term[..slash];
      if rtype in index then Matches(index[rtype], rtype, term[slash + 1..]) else []
    else
      FlatMap(types, MatchesIn(index, term))
  }

  /** A type-qualified search only finds objects of that type, and nothing when the type is missing. */
  lemma SearchTyped(index: map<String, seq<String>>, types: seq<String>, search: String, h: Hit)
    requires forall t :: t in types ==> t in index
    requires '/' in Lower(search) && h in SearchHits(index, types, search)
    ensures h.rtype == Lower(search)[..IndexOf(Lower(search), '/')] && h.rtype in index && h.name in index[h.rtype]
  {
    var term := Lower(search);
    var slash := IndexOf(term, '/');
    MatchesSound(index[term[..slash]], term[..slash], term[slash + 1..], h);
  }

  /** Without a '/', a hit is a match in one of the types: an exact match in one type does not suppress the others. */
  lemma SearchAll(index: map<String, seq<String>>, types: seq<String>, search: String, h: Hit)
    requires forall t :: t in types ==> t in index
    requires '/' !in Lower(search)
    ensures h in SearchHits(index, types, search) <==> exists k :: 0 <= k < |types| && h in Matches(index[types[k]], types[k], Lower(search))
  {
    FlatMapMember(types, MatchesIn(index, Lower(search)), h);
  }

  /** A hit of a search over '/'-free type names is a link that splits back into its type and name. */
  lemma HitLink(index: map<String, seq<String>>, types: seq<String>, search: String, h: Hit)
    requires forall t :: t in types ==> t in index && '/' !in t
    requires h in SearchHits(index, types, search)
    ensures LinkType(h.rtype + "/" + h.name) == h.rtype && LinkObject(h.rtype + "/" + h.name) == h.name
  {
    var term := Lower(search);
    if '/' in term {
      SearchTyped(index, types, search, h);
    } else {
      SearchAll(index, types, search, h);
      var k :| 0 <= k < |types| && h in Matches(index[types[k]], types[k], term);
      MatchesSound(index[types[k]], types[k], term, h);
    }
    LinkOfPath(h.rtype, h.name);
  }

  /** matchObjects: walks the objects, returning at once on an exact match. */
  method MatchObjects(objects: seq<String>, rtype: String, term: String) returns (results: seq<Hit>)
    ensures results == Matches(objects, rtype, term)
  {
    results := [];
    for i := 0 to |objects|
      invariant results == Partial(objects[..i], rtype, term)
      invariant FirstExact(objects, term) >= i
    {
      assert objects[..i + 1][..i] == objects[..i];
      var s := Lower(objects[i]);
      if Contains(s, term) {
        if s == term {
          return [Hit(rtype, objects[i])];
        }
        results := results + [Hit(rtype, objects[i])];
      }
    }
    assert objects[..|objects|] == objects;
  }

  /**
   * searchFilter.  index is the loaded index of object names by type;
   * types lists its keys in the order the page walks them.
   */
  method SearchFilter(index: map<String, seq<String>>, types: seq<String>, search: String) returns (results: seq<Hit>)
    requires NoDup(types) && forall t :: t in types <==> t in index
    ensures results == SearchHits(index, types, search)
  {
    results := [];
    var term := Lower(search);
    var slash := IndexOf(term, '/');
    if slash != -1 {
      var rtype := term[..slash];
      term := term[slash + 1..];
      if rtype in index {
        results := MatchObjects(index[rtype], rtype, term);
      }
    } else {
      for i := 0 to |types|
        invariant results == FlatMap(types[..i], MatchesIn(index, term))
      {
        assert types[..i + 1][..i] == types[..i];
        var objlist := MatchObjects(index[types[i]], types[i], term);
        results := results + objlist;
      }
      assert types[..|types|] == types;
    }
  }

  // ---------------------------------------------------------------------
  // The search page

  /** The app-search component: the search text, what the page shows, and the object it fetches. */
  class AppSearch {
    var Search: String
    /** "noresults", "loading", "resultlist", ...; None before any search. */
    var State: Option<String>
    var Result: seq<Hit>
    /** The API path fetched for a single result. */
    var Query: Option<String>
    /** The last text sent to the other components through SearchChanged. */
    var Announced: Option<String>

    constructor(search: String)
      ensures Search == search && State == None && Result == [] && Query == None && Announced == None
    {
      Search := search;
      State := None;
      Result := [];
      Query := None;
      Announced := None;
    }

    /**
     * doSearch: no result shows "noresults"; a single result is fetched
     * from the registry API while the page shows "loading"; several are
     * listed under "resultlist".
     */
    method DoSearch(index: map<String, seq<String>>, types: seq<String>) returns (filtered: seq<Hit>)
      requires NoDup(types) && forall t :: t in types <==> t in index
      modifies this`State, this`Result, this`Query, this`Announced
      ensures filtered == SearchHits(index, types, Search) && Announced == Some(Search)
      ensures |filtered| == 0 ==> State == Some("noresults") && Result == old(Result) && Query == old(Query)
      ensures |filtered| == 1 ==>
        State == Some("loading") && Result == old(Result) && Query == Some("/api/registry/" + filtered[0].rtype + "/" + filtered[0].name)
      ensures |filtered| > 1 ==> State == Some("resultlist") && Result == filtered && Query == old(Query)
    {
      Announced := Some(Search);
      filtered := SearchFilter(index, types, Search);
      if |filtered| == 0 {
        State := Some("noresults");
      } else if |filtered| == 1 {
        var objname := filtered[0];
        State := Some("loading");
        Query := Some("/api/registry/" + objname.rtype + "/" + objname.name);
      } else {
        State := Some("resultlist");
        Result := filtered;
      }
    }
  }
}
