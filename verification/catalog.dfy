/** The reference datfile and the digest-to-name index built from it. */
module Catalog {
  import opened Wrappers

  /** An XML element as the parser delivers it: tag, attributes and the
      child elements in document order. */
  datatype Element = Element(tag: string, attrib: map<string, string>, children: seq<Element>)

  /** Lower-case hex SHA-1 digest to reference (rom) name. */
  type Index = map<string, string>

  /** The `KeyError` raised when a rom element lacks an attribute. */
  datatype KeyError = KeyError(key: string)

  /** A rom element carrying both attributes the index needs. */
  predicate Complete(rom: Element)
  {
    "sha1" in rom.attrib && "name" in rom.attrib
  }

  /** The children of one game that are tagged `rom`, in document order. */
  function RomsAmong(xs: seq<Element>): (roms: seq<Element>)
    ensures |roms| <= |xs|
    ensures forall x :: x in roms <==> x in xs && x.tag == "rom"
  {
    if |xs| == 0 then []
    else (if xs[0].tag == "rom" then [xs[0]] else []) + RomsAmong(xs[1..])
  }

  /** Every rom of every game, game after game: the order in which the
      index is filled.  Every child of the root counts as a game. */
  function RomsOf(games: seq<Element>): (roms: seq<Element>)
    ensures forall x :: x in roms <==> exists g :: g in games && x in g.children && x.tag == "rom"
  {
    RomsOfMembers(games);
    GameByGame(games)
  }

  /** The rom lists of the games, concatenated in order. */
  function GameByGame(games: seq<Element>): seq<Element>
  {
    if |games| == 0 then []
    else GameByGame(games[..|games| - 1]) + RomsAmong(games[|games| - 1].children)
  }

  /** The concatenated rom lists hold exactly the roms of the games. */
  lemma {:induction false} RomsOfMembers(games: seq<Element>)
    ensures forall x :: x in GameByGame(games) <==> exists g :: g in games && x in g.children && x.tag == "rom"
  {
    if |games| > 0 {
      var init := games[..|games| - 1];
      RomsOfMembers(init);
      assert forall g :: g in games <==> g in init || g == games[|games| - 1];
    }
  }

  /** One assignment `index[sha1] = name`.  Python evaluates the right-hand
      side first, so a missing `name` is reported before a missing `sha1`. */
  function Insert(index: Index, rom: Element): (r: Result<Index, KeyError>)
    ensures r.Success? <==> Complete(rom)
    ensures r.Failure? ==> r.error == MissingKey(rom)
    ensures r.Success? ==> r.value.Keys == index.Keys + {rom.attrib["sha1"]}
    ensures r.Success? ==> r.value[rom.attrib["sha1"]] == rom.attrib["name"]
    ensures r.Success? ==> forall k :: k in index && k != rom.attrib["sha1"] ==> r.value[k] == index[k]
  {
    if "name" !in rom.attrib then Failure(KeyError("name"))
    else if "sha1" !in rom.attrib then Failure(KeyError("sha1"))
    else Success(index[rom.attrib["sha1"] := rom.attrib["name"]])
  }

  /** The digests carried by a sequence of roms. */
  function Digests(roms: seq<Element>): (ds: set<string>)
    ensures forall k :: k in ds <==> exists i :: 0 <= i < |roms| && "sha1" in roms[i].attrib && roms[i].attrib["sha1"] == k
  {
    if |roms| == 0 then {}
    else
      var prefix := roms[..|roms| - 1];
      var last := roms[|roms| - 1];
      assert forall i | 0 <= i < |prefix| :: prefix[i] == roms[i];
      Digests(prefix) + (if "sha1" in last.attrib then {last.attrib["sha1"]} else {})
  }

  /** `i` is the first rom lacking an attribute. */
  predicate FirstIncomplete(roms: seq<Element>, i: int)
  {
    0 <= i < |roms| && !Complete(roms[i]) && forall j | 0 <= j < i :: Complete(roms[j])
  }

  /** The fold of lines 60-62 over the roms in document order, starting from
      the empty dict.  A failure is the exception of the first incomplete rom. */
  function IndexRoms(roms: seq<Element>): (r: Result<Index, KeyError>)
    ensures r.Success? <==> forall i | 0 <= i < |roms| :: Complete(roms[i])
    ensures r.Failure? ==> exists i :: FirstIncomplete(roms, i) && r.error == MissingKey(roms[i])
  {
    if |roms| == 0 then Success(map[])
    else
      var prefix := roms[..|roms| - 1];
      match IndexRoms(prefix)
      case Failure(e) =>
        assert forall i | 0 <= i < |prefix| :: prefix[i] == roms[i];
        Failure(e)
      case Success(m) =>
        var r := Insert(m, roms[|roms| - 1]);
        assert r.Failure? ==> FirstIncomplete(roms, |roms| - 1);
        r
  }

  /** The exception a rom lacking an attribute raises at line 62. */
  function MissingKey(rom: Element): KeyError
  {
    KeyError(if "name" !in rom.attrib then "name" else "sha1")
  }

  /** The index holds exactly the digests of the roms, so it has at most
      one entry per rom. */
  lemma {:induction false} IndexKeys(roms: seq<Element>)
    requires IndexRoms(roms).Success?
    ensures IndexRoms(roms).value.Keys == Digests(roms)
    ensures |IndexRoms(roms).value| <= |roms|
  {
    if |roms| > 0 {
      var prefix := roms[..|roms| - 1];
      var last := roms[|roms| - 1];
      assert forall i | 0 <= i < |prefix| :: prefix[i] == roms[i];
      IndexKeys(prefix);
      var m := IndexRoms(prefix).value;
      assert IndexRoms(roms).value == m[last.attrib["sha1"] := last.attrib["name"]];
    }
  }

  /** `x` is a rom of the datfile: a `rom`-tagged child of a child of the root. */
  predicate IsRomOf(root: Element, x: Element)
  {
    exists g :: g in root.children && x in g.children && x.tag == "rom"
  }

  /** build_sha1_to_name_dict: the index of every rom of every game.  It
      fails exactly when some rom lacks an attribute; otherwise its keys are
      exactly the digests of the roms, at most one per rom. */
  function BuildIndex(root: Element): (r: Result<Index, KeyError>)
    ensures r.Success? <==> forall x :: IsRomOf(root, x) ==> Complete(x)
    ensures r.Success? ==> forall k :: k in r.value <==>
              exists x :: IsRomOf(root, x) && "sha1" in x.attrib && x.attrib["sha1"] == k
    ensures r.Success? ==> |r.value| <= |RomsOf(root.children)|
  {
    var roms := RomsOf(root.children);
    RomsOfRoot(root);
    var r := IndexRoms(roms);
    if r.Success? then IndexKeys(roms); DigestsOfRoot(root); r else r
  }

  /** The flattened rom list holds exactly the roms of the datfile. */
  lemma RomsOfRoot(root: Element)
    ensures forall x :: x in RomsOf(root.children) <==> IsRomOf(root, x)
    ensures (forall i | 0 <= i < |RomsOf(root.children)| :: Complete(RomsOf(root.children)[i]))
            <==> forall x :: IsRomOf(root, x) ==> Complete(x)
  {
  }

  /** The digests of the flattened rom list are the digests of the datfile's roms. */
  lemma DigestsOfRoot(root: Element)
    ensures forall k :: k in Digests(RomsOf(root.children)) <==>
              exists x :: IsRomOf(root, x) && "sha1" in x.attrib && x.attrib["sha1"] == k
  {
  }

  /** On a digest shared by several roms the index keeps the name of the
      last of them (overwrite semantics of line 62). */
  lemma {:induction false} LastRomWins(roms: seq<Element>, i: int)
    requires IndexRoms(roms).Success?
    requires 0 <= i < |roms|
    requires forall j | i < j < |roms| :: roms[j].attrib["sha1"] != roms[i].attrib["sha1"]
    ensures roms[i].attrib["sha1"] in IndexRoms(roms).value
    ensures IndexRoms(roms).value[roms[i].attrib["sha1"]] == roms[i].attrib["name"]
  {
    var prefix := roms[..|roms| - 1];
    if i < |roms| - 1 {
      assert forall j | 0 <= j < |prefix| :: prefix[j] == roms[j];
      LastRomWins(prefix, i);
    }
  }

  /** Roms are listed game after game: the roms of a concatenation of game
      lists are the concatenation of their roms. */
  lemma RomsOfAppend(a: seq<Element>, b: seq<Element>)
    ensures RomsOf(a + b) == RomsOf(a) + RomsOf(b)
  {
    GameByGameAppend(a, b);
  }

  /** GameByGame distributes over concatenation. */
  lemma {:induction false} GameByGameAppend(a: seq<Element>, b: seq<Element>)
    ensures GameByGame(a + b) == GameByGame(a) + GameByGame(b)
    decreases |b|
  {
    if |b| == 0 {
      assert a + b == a;
    } else {
      var init := b[..|b| - 1];
      var ab := a + b;
      assert ab[..|ab| - 1] == a + init && ab[|ab| - 1] == b[|b| - 1];
      GameByGameAppend(a, init);
    }
  }

  /** Overwrite semantics for the whole datfile: a rom no later rom of the
      datfile (in document order) shares the digest with gives the index its name. */
  lemma LastRomOfDatfileWins(root: Element, i: int)
    requires BuildIndex(root).Success?
    requires 0 <= i < |RomsOf(root.children)| && Complete(RomsOf(root.children)[i])
    requires forall j | i < j < |RomsOf(root.children)| ::
               "sha1" in RomsOf(root.children)[j].attrib
               && RomsOf(root.children)[j].attrib["sha1"] != RomsOf(root.children)[i].attrib["sha1"]
    ensures BuildIndex(root).value[RomsOf(root.children)[i].attrib["sha1"]] == RomsOf(root.children)[i].attrib["name"]
  {
    var roms := RomsOf(root.children);
    assert BuildIndex(root) == IndexRoms(roms);
    LastRomWins(roms, i);
  }

  /** The rom list is read game by game: the roms of a concatenation of
      element lists are the concatenation of their roms. */
  lemma {:induction false} RomsAmongAppend(a: seq<Element>, b: seq<Element>)
    ensures RomsAmong(a + b) == RomsAmong(a) + RomsAmong(b)
  {
    if |a| > 0 {
      assert (a + b)[0] == a[0];
      assert (a + b)[1..] == a[1..] + b;
      RomsAmongAppend(a[1..], b);
      var head := if a[0].tag == "rom" then [a[0]] else [];
      calc {
        RomsAmong(a + b);
        head + RomsAmong(a[1..] + b);
        head + (RomsAmong(a[1..]) + RomsAmong(b));
        (head + RomsAmong(a[1..])) + RomsAmong(b);
        RomsAmong(a) + RomsAmong(b);
      }
    } else {
      assert a + b == b;
    }
  }
}
