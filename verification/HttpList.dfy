/**
  `ObjectStoreList`: lists a directory of an object store page by page. Pages may
  be empty, bodies arrive in any chunks, every poll may be pending, and requests
  may fail before or after they are made.
*/
module HttpList {
  import opened Basics

  type DirEntry = string

  /** What one list request answers: a body, and what it parses to: entries and
      the token of the next page, if any. A broken body does not parse. */
  datatype Page = Page(body: seq<byte>, entries: seq<DirEntry>, next: Option<string>) | Broken(body: seq<byte>)

  type Parsing = seq<byte> -> Option<(seq<DirEntry>, Option<string>)>

  datatype ListRequestState =
    | DoRequest(continuation: Option<string>)
    | Requesting(token: Option<string>)
    | UsedUp
    | Reading(buf: seq<byte>, chunks: seq<seq<byte>>)
    | Exhausted

  function Entries(page: Page): (es: seq<DirEntry>) {
    if page.Page? then page.entries else []
  }

  function EntriesOf(pages: seq<Page>): (es: seq<DirEntry>) {
    if pages == [] then [] else EntriesOf(pages[..|pages| - 1]) + Entries(pages[|pages| - 1])
  }

  /** A finite chain: every page but the last names the token of the next one; the
      last names none, or is broken. */
  ghost predicate Chain(pages: seq<Page>) {
    && pages != []
    && (var last := pages[|pages| - 1]; last.Page? ==> last.next == None)
    && forall i :: 0 <= i < |pages| - 1 ==> pages[i].Page? && pages[i].next.Some?
  }

  /** The server and the parser stand for these pages. */
  ghost predicate Serves(serve: Option<string> -> seq<byte>, parse: Parsing, pages: seq<Page>) {
    forall i: nat {:trigger TokenOf(pages, i)} :: i < |pages| ==>
      && serve(TokenOf(pages, i)) == pages[i].body
      && parse(pages[i].body) == if pages[i].Page? then Some((pages[i].entries, pages[i].next)) else None
  }

  predicate Within(cuts: seq<nat>, n: nat) {
    forall i :: 0 <= i < |cuts| ==> cuts[i] <= n
  }

  /** What was listed in rounds that lost their token, the i-th of them in front
      of page `cuts[i]`. */
  function Rounds(pages: seq<Page>, cuts: seq<nat>): (rounds: seq<seq<DirEntry>>)
    requires Within(cuts, |pages|)
  {
    seq(|cuts|, i requires 0 <= i < |cuts| => EntriesOf(pages[..cuts[i]]))
  }

  lemma RoundsSnoc(pages: seq<Page>, cuts: seq<nat>, page: nat)
    requires Within(cuts, |pages|) && page <= |pages|
    ensures Within(cuts + [page], |pages|)
    ensures Concat(Rounds(pages, cuts + [page])) == Concat(Rounds(pages, cuts)) + EntriesOf(pages[..page])
  {
    assert Rounds(pages, cuts + [page]) == Rounds(pages, cuts) + [EntriesOf(pages[..page])];
    ConcatSnoc(Rounds(pages, cuts), EntriesOf(pages[..page]));
  }

  /** Every entry is listed once exactly if no token was lost behind an entry. */
  lemma ListedOnceIff(pages: seq<Page>, cuts: seq<nat>)
    requires Within(cuts, |pages|)
    ensures Concat(Rounds(pages, cuts)) + EntriesOf(pages) == EntriesOf(pages)
            <==> forall i :: 0 <= i < |cuts| ==> EntriesOf(pages[..cuts[i]]) == []
  {
    var rounds := Rounds(pages, cuts);
    ConcatEmptyIff(rounds);
    assert |Concat(rounds) + EntriesOf(pages)| == |Concat(rounds)| + |EntriesOf(pages)|;
    assert [] + EntriesOf(pages) == EntriesOf(pages);
    assert forall i :: 0 <= i < |cuts| ==> rounds[i] == EntriesOf(pages[..cuts[i]]);
  }

  lemma OnceWithoutCuts(pages: seq<Page>, cuts: seq<nat>)
    requires Within(cuts, |pages|)
    ensures cuts == [] ==> Concat(Rounds(pages, cuts)) + EntriesOf(pages) == EntriesOf(pages)
  {
    ListedOnceIff(pages, cuts);
  }

  lemma ChunksSplit(buf: seq<byte>, chunks: seq<seq<byte>>)
    requires chunks != []
    ensures buf + Concat(chunks) == (buf + chunks[0]) + Concat(chunks[1..])
  {
    ConcatHead(chunks);
    Assoc(buf, chunks[0], Concat(chunks[1..]));
  }

  /** The token that asks for page `i`. */
  function TokenOf(pages: seq<Page>, i: nat): (t: Option<string>)
    requires i < |pages|
  {
    if i == 0 || pages[i - 1].Broken? then None else pages[i - 1].next
  }

  /** Any way of cutting a body into chunks. */
  method Chop(body: seq<byte>) returns (chunks: seq<seq<byte>>)
    ensures Concat(chunks) == body
  {
    chunks := [];
    var rest := body;
    while rest != []
      invariant Concat(chunks) + rest == body
      decreases |rest|
    {
      var n :| 0 < n <= |rest|;
      ConcatSnoc(chunks, rest[..n]);
      assert Concat(chunks) + rest[..n] + rest[n..] == body;
      chunks, rest := chunks + [rest[..n]], rest[n..];
    }
  }

  class ObjectStoreList {
    // The body the server sends for a token, and the parser of the object store.
    const serve: Option<string> -> seq<byte>
    const parse: Parsing
    var state: ListRequestState

    // The pages behind the server and parser, the page being fetched or next to
    // be fetched, everything appended so far, and where a token was lost.
    ghost const pages: seq<Page>
    ghost var page: nat
    ghost var listed: seq<DirEntry>
    ghost var cuts: seq<nat>
    // How often the server was pending, and how often it or making a request failed.
    ghost var pendings: nat
    ghost var failures: nat

    constructor (serve: Option<string> -> seq<byte>, parse: Parsing, ghost pages: seq<Page>)
      requires Chain(pages) && Serves(serve, parse, pages)
      ensures Valid() && this.pages == pages && listed == [] && cuts == [] && pendings == 0 && failures == 0
    {
      this.serve, this.parse, this.pages := serve, parse, pages;
      state, page, listed, cuts, pendings, failures := DoRequest(None), 0, [], [], 0, 0;
    }

    /** An answer that is not ready was given by the server, or the listing is `stuck`. */
    ghost predicate Heard<T>(r: Poll<T>, stuck: bool, pendings0: nat, failures0: nat)
      reads this
    {
      && pendings == pendings0 + (if r.Pending? then 1 else 0) && failures0 <= failures
      && (failures > failures0 ==> r == Failed) && (r == Failed ==> failures > failures0 || stuck)
    }

    ghost predicate Valid()
      reads this
    {
      && Chain(pages) && page <= |pages| && Serves(serve, parse, pages)
      && Within(cuts, |pages|)
      && listed == Concat(Rounds(pages, cuts)) + EntriesOf(pages[..page])
      && (state.Exhausted? <==> page == |pages|) && (state.Exhausted? ==> pages[|pages| - 1].Page?)
      && (state.DoRequest? ==> state.continuation == TokenOf(pages, page))
      && (state.Requesting? ==> state.token == TokenOf(pages, page))
      && (state.Reading? ==> state.buf + Concat(state.chunks) == pages[page].body)
    }

    /** Polls the response to the request for the current page; an error uses the
        request up. */
    method PollResponse() returns (r: Poll<()>)
      requires Valid() && state.Requesting?
      modifies this`state, this`pendings, this`failures
      ensures Valid() && Heard(r, false, old(pendings), old(failures))
      ensures match r case Pending => state == old(state) case Failed => state == UsedUp case Ready(_) => state.Reading?
    {
      if * {
        pendings := pendings + 1;
        return Pending;
      }
      if * {
        state, failures := UsedUp, failures + 1;
        return Failed;
      }
      var chunks := Chop(serve(state.token));
      state := Reading([], chunks);
      r := Ready(());
    }

    /** Makes the request for the next page. The token is taken out first, so that
        a failure forgets it and the listing starts again. */
    method CreateRequest() returns (ok: bool)
      requires Valid() && state.DoRequest?
      modifies this
      ensures Valid() && listed == old(listed) && pendings == old(pendings) && failures == old(failures) + (if ok then 0 else 1)
      ensures ok ==> state == Requesting(old(state).continuation) && page == old(page) && cuts == old(cuts)
      ensures !ok ==> state == DoRequest(None) && page == 0
      ensures !ok ==> cuts == if old(page) == 0 then old(cuts) else old(cuts) + [old(page)]
    {
      var token := state.continuation;
      state := DoRequest(None);
      if * {
        if page > 0 {
          RoundsSnoc(pages, cuts, page);
          cuts := cuts + [page];
        }
        page, failures := 0, failures + 1;
        assert listed == listed + EntriesOf(pages[..0]);
        return false;
      }
      state := Requesting(token);
      ok := true;
    }

    ghost function Rank(): (n: nat)
      reads this
    {
      match state case DoRequest(_) => 2 case Requesting(_) => 1 case _ => 0
    }

    /** One turn of the loop: the entries of a page once its body is complete. */
    method Turn() returns (r: Poll<seq<DirEntry>>)
      requires Valid() && state != Exhausted
      modifies this
      ensures Valid() && listed == old(listed) + (if r.Ready? then r.value else [])
      ensures r.Ready? ==> Advanced(old(page), old(Rank()), old(Chunks()), r.value)
      ensures cuts == old(cuts) || (r == Failed && old(state).DoRequest? && old(page) > 0 && cuts == old(cuts) + [old(page)])
      ensures old(Stuck()) ==> !r.Ready? && state == old(state) && page == old(page)
      ensures Heard(r, Stuck(), old(pendings), old(failures))
    {
      match state
      case DoRequest(_) =>
        var ok := CreateRequest();
        r := if ok then Ready([]) else Failed;
      case Requesting(_) =>
        var resp := PollResponse();
        r := match resp case Pending => Pending case Failed => Failed case Ready(_) => Ready([]);
      case UsedUp =>
        // Polling the finished future is not defined; nothing comes of it here.
        r := Failed;
      case Reading(buf, chunks) =>
        if * {
          pendings := pendings + 1;
          return Pending;
        }
        if * {
          failures := failures + 1;
          return Failed;
        }
        if chunks != [] {
          ChunksSplit(buf, chunks);
          state := Reading(buf + chunks[0], chunks[1..]);
          r := Ready([]);
        } else {
          var entries := Parsed(buf);
          r := if entries.Some? then Ready(entries.value) else Failed;
        }
    }

    ghost predicate Advanced(page0: nat, rank0: nat, chunks0: nat, entries: seq<DirEntry>)
      reads this
    {
      || page > page0
      || (page == page0 && entries == [] && (Rank() < rank0 || (Rank() == rank0 && Chunks() < chunks0)))
    }

    ghost function Chunks(): (n: nat)
      reads this
    {
      if state.Reading? then |state.chunks| else 0
    }

    /** The request is used up, or a broken body has arrived. */
    ghost predicate Stuck()
      reads this
    {
      state == UsedUp || (state.Reading? && state.chunks == [] && page < |pages| && pages[page].Broken?)
    }

    /** Appends entries of the next non-empty page and says how many; zero only
        after the last page. A used-up request and a broken body fail for ever; apart
        from that a poll is pending or fails exactly if the server was or did. */
    method PollList(ents: seq<DirEntry>) returns (r: Poll<nat>, ents': seq<DirEntry>)
      requires Valid()
      modifies this
      ensures Valid() && old(listed) <= listed
      ensures ents' == ents + listed[|old(listed)|..]
      ensures |listed| - |old(listed)| == if r.Ready? then r.value else 0
      ensures r == Ready(0) ==> state == Exhausted
      ensures state == Exhausted ==> listed == Concat(Rounds(pages, cuts)) + EntriesOf(pages) && pages[|pages| - 1].Page?
      ensures old(state) == Exhausted ==> r == Ready(0)
      ensures old(Stuck()) ==> !r.Ready? && state == old(state) && page == old(page)
      ensures r.Ready? ==> page >= old(page) + (if r.value > 0 then 1 else 0)
      ensures r != Failed ==> cuts == old(cuts)
      ensures Heard(r, Stuck(), old(pendings), old(failures))
      ensures cuts == old(cuts) || exists k: nat :: 0 < k < |pages| && cuts == old(cuts) + [k]
    {
      ents' := ents;
      while state != Exhausted
        invariant Valid() && listed == old(listed) && cuts == old(cuts) && pendings == old(pendings) && failures == old(failures)
        invariant old(state) == Exhausted ==> state == Exhausted
        invariant page >= old(page) && (old(Stuck()) ==> state == old(state) && page == old(page))
        decreases |pages| - page, Rank(), Chunks()
      {
        var turn := Turn();
        assert pages[..|pages|] == pages;
        if !turn.Ready? {
          return if turn.Pending? then Pending else Failed, ents;
        }
        if turn.value != [] {
          return Ready(|turn.value|), ents + turn.value;
        }
      }
      assert pages[..page] == pages;
      r := Ready(0);
    }

    /** Parses a complete body and moves on to the next page or stops; a body that
        does not parse changes nothing. */
    method Parsed(body: seq<byte>) returns (entries: Option<seq<DirEntry>>)
      requires Valid() && state == Reading(body, [])
      modifies this`state, this`page, this`listed
      ensures Valid() && cuts == old(cuts)
      ensures entries.None? <==> pages[old(page)].Broken?
      ensures entries.None? ==> state == old(state) && page == old(page) && listed == old(listed)
      ensures entries.Some? ==> page == old(page) + 1 && !state.Reading? && listed == old(listed) + entries.value
    {
      assert body + Concat([]) == body;
      assert serve(TokenOf(pages, page)) == body;
      var parsed := parse(body);
      if parsed.None? {
        return None;
      }
      var (es, continuation) := parsed.value;
      assert pages[page].entries == es && pages[page].next == continuation;
      assert pages[..page + 1][..page] == pages[..page];
      Assoc(Concat(Rounds(pages, cuts)), EntriesOf(pages[..page]), es);
      if continuation.Some? {
        state := DoRequest(continuation);
      } else {
        state := Exhausted;
      }
      page, listed := page + 1, listed + es;
      entries := Some(es);
    }
  }

  // ---- Whole listings ----

  function Sum(ns: seq<nat>): (n: nat) {
    if ns == [] then 0 else Sum(ns[..|ns| - 1]) + ns[|ns| - 1]
  }

  lemma SumSnoc(ns: seq<nat>, n: nat)
    ensures Sum(ns + [n]) == Sum(ns) + n
  {
    assert (ns + [n])[..|ns|] == ns;
  }

  lemma Grown(was: seq<DirEntry>, ents: seq<DirEntry>, now: seq<DirEntry>)
    requires was + ents <= now
    ensures now == was + (ents + now[|was + ents|..])
  {
    assert now == (was + ents) + now[|was + ents|..];
    Assoc(was, ents, now[|was + ents|..]);
  }

  /** Polls up to `polls` times, until the end. The counts add up to the entries. If
      no answer was a failure, no token was lost. The end is reached if there are more
      polls than pages, unless the server was pending or failed or the listing is stuck. */
  method ListAll(list: ObjectStoreList, polls: nat) returns (ents: seq<DirEntry>, counts: seq<nat>, ended: bool, failed: bool)
    requires list.Valid()
    modifies list
    ensures list.Valid() && list.listed == old(list.listed) + ents && Sum(counts) == |ents|
    ensures !failed ==> list.cuts == old(list.cuts)
    ensures ended ==> list.listed == Concat(Rounds(list.pages, list.cuts)) + EntriesOf(list.pages)
    ensures polls > |list.pages| ==> ended || list.pendings > old(list.pendings) || list.failures > old(list.failures) || list.Stuck()
  {
    ents, counts, ended, failed := [], [], false, false;
    for k := 0 to polls
      invariant list.Valid() && list.listed == old(list.listed) + ents && Sum(counts) == |ents|
      invariant !failed ==> list.cuts == old(list.cuts)
      invariant list.pendings >= old(list.pendings) && list.failures >= old(list.failures)
      invariant k <= list.page || list.pendings > old(list.pendings) || list.failures > old(list.failures) || list.Stuck()
    {
      var r, ents' := list.PollList(ents);
      Grown(old(list.listed), ents, list.listed);
      ents := ents';
      if r.Ready? {
        SumSnoc(counts, r.value);
        counts := counts + [r.value];
        if r.value == 0 {
          ended := true;
          return;
        }
      }
      failed := failed || r == Failed;
    }
  }

  /** A listing from the beginning that comes to its end without a failure gives the
      entries of all pages, in order and once each. */
  method ListOnce(list: ObjectStoreList, polls: nat) returns (ents: seq<DirEntry>, ended: bool, failed: bool)
    requires list.Valid() && list.listed == [] && list.cuts == []
    modifies list
    ensures list.Valid() && (ended && !failed ==> ents == EntriesOf(list.pages))
    ensures polls > |list.pages| ==> ended || list.pendings > old(list.pendings) || list.failures > old(list.failures) || list.Stuck()
    ensures ended ==> (ents == EntriesOf(list.pages) <==> forall i :: 0 <= i < |list.cuts| ==> EntriesOf(list.pages[..list.cuts[i]]) == [])
  {
    var counts;
    ents, counts, ended, failed := ListAll(list, polls);
    assert list.listed == ents;
    ListedOnceIff(list.pages, list.cuts);
    OnceWithoutCuts(list.pages, list.cuts);
  }

  const TWO_PAGES: seq<Page> := [Page([1], ["a"], Some("t")), Page([2], ["b"], None)]

  lemma TwoPages()
    ensures Chain(TWO_PAGES) && Concat(Rounds(TWO_PAGES, [])) + EntriesOf(TWO_PAGES) == ["a", "b"]
    ensures Within([1], |TWO_PAGES|) && Concat(Rounds(TWO_PAGES, [1])) + EntriesOf(TWO_PAGES) == ["a", "a", "b"]
  {
    assert TWO_PAGES[..1] == [TWO_PAGES[0]] && TWO_PAGES[..1][..0] == [];
    assert EntriesOf(TWO_PAGES[..1]) == ["a"];
    assert Rounds(TWO_PAGES, [1]) == [["a"]];
    ConcatSnoc<DirEntry>([], ["a"]);
    assert [] + [["a"]] == [["a"]];
    assert EntriesOf(TWO_PAGES) == ["a", "b"];
    assert Rounds(TWO_PAGES, []) == [];
  }

  /** Two pages of one entry, the first listed. The request for the second cannot be
      made, and nothing fails behind that: the listing ends with the first entry twice. */
  method ListedTwice(list: ObjectStoreList, polls: nat) returns (lost: bool, ended: bool, failed: bool)
    requires list.Valid() && list.pages == TWO_PAGES
    requires list.state.DoRequest? && list.page == 1 && list.cuts == []
    modifies list
    ensures lost && ended && !failed ==> list.listed == ["a", "a", "b"]
    ensures !lost && ended && !failed ==> list.listed == ["a", "b"]
  {
    var ok := list.CreateRequest();
    lost := !ok;
    assert list.cuts == if lost then [1] else [];
    var ents, counts;
    ents, counts, ended, failed := ListAll(list, polls);
    assert [] + [1] == [1];
    TwoPages();
  }
}
