/** The vector store's bookkeeping: how a processed paper becomes chunk
    records with identifiers and metadata, how the stored papers are listed
    one per title, and how a paper is deleted by title. Embedding and
    similarity search are outside the model; the store is the sequence of
    its records, in insertion order. */
module Storage {
  import opened Wrappers
  import opened Strings
  import opened Paths
  import opened Processor

  // ---------------------------------------------------------------------------
  // Records
  // ---------------------------------------------------------------------------

  /** The metadata of one stored chunk: string keys to string values. */
  type Metadata = map<string, string>

  /** A chunk of text with its metadata, as handed to the store. */
  datatype Document = Document(pageContent: string, metadata: Metadata)

  /** A stored record: its identifier, its text and its metadata, which a
      store may hold as null. */
  datatype Record = Record(id: string, content: string, metadata: Option<Metadata>)

  const TitleKey := "title"
  const AuthorsKey := "authors"
  const DateKey := "publication_date"
  const SourceKey := "source_file"
  const AbstractKey := "abstract"
  const ChunkIdKey := "chunk_id"
  const AuthorSeparator := ", "

  // ---------------------------------------------------------------------------
  // Paper-level metadata
  // ---------------------------------------------------------------------------

  /** The metadata every chunk of a paper shares: its title, its authors
      joined by ", ", its date or "" and its file path as a string, plus its
      abstract when that is not empty. */
  function PaperFields(m: PaperMetadata): (md: Metadata)
    ensures md.Keys == {TitleKey, AuthorsKey, DateKey, SourceKey}
                       + (if Truthy(m.abstractText) then {AbstractKey} else {})
    ensures ChunkIdKey !in md
    ensures md[TitleKey] == m.title
    ensures md[AuthorsKey] == Join(m.authors, AuthorSeparator)
    ensures md[DateKey] == if m.publicationDate.Some? then m.publicationDate.value else ""
    ensures md[SourceKey] == ToString(m.sourceFile)
    ensures AbstractKey in md ==> md[AbstractKey] == m.abstractText.value
  {
    var base := map[
      TitleKey := m.title,
      AuthorsKey := Join(m.authors, AuthorSeparator),
      DateKey := if m.publicationDate.Some? then m.publicationDate.value else "",
      SourceKey := ToString(m.sourceFile)];
    if Truthy(m.abstractText) then base[AbstractKey := m.abstractText.value] else base
  }

  /** The authors with a space before every one but the first. */
  function Spaced(authors: seq<string>): (r: seq<string>)
    requires |authors| >= 1
    ensures |r| == |authors| && r[0] == authors[0]
    ensures forall k :: 1 <= k < |r| ==> r[k] == " " + authors[k]
  {
    [authors[0]] + seq(|authors| - 1, k requires 0 <= k < |authors| - 1 => " " + authors[k + 1])
  }

  /** A leading space on the first piece is a leading space on the join. */
  lemma JoinLeadingSpace(x: string, tail: seq<string>)
    ensures Join([" " + x] + tail, ",") == " " + Join([x] + tail, ",")
  {
    if tail != [] {
      assert ([" " + x] + tail)[1..] == tail;
      assert ([x] + tail)[1..] == tail;
    }
  }

  /** Joining with ", " is joining the spaced authors with ",". */
  lemma {:induction false} JoinWithSpace(authors: seq<string>)
    requires |authors| >= 1
    ensures Join(authors, AuthorSeparator) == Join(Spaced(authors), ",")
  {
    if |authors| > 1 {
      var rest := authors[1..];
      JoinWithSpace(rest);
      var s := Spaced(authors);
      var sr := Spaced(rest);
      assert s[1..] == [" " + rest[0]] + sr[1..];
      assert sr == [rest[0]] + sr[1..];
      JoinLeadingSpace(rest[0], sr[1..]);
      assert Join(authors, AuthorSeparator) == authors[0] + AuthorSeparator + Join(rest, AuthorSeparator);
      assert Join(s, ",") == s[0] + "," + Join(s[1..], ",");
    }
  }

  /** Each spaced author strips back to the author. */
  lemma SpacedStripsBack(authors: seq<string>, k: nat)
    requires |authors| >= 1 && k < |authors|
    requires IsTrimmed(authors[k])
    ensures Strip(Spaced(authors)[k]) == authors[k]
  {
    if k > 0 {
      StripPrependWhitespace(" ", authors[k]);
    }
  }

  /** Splitting the joined authors at the commas gives the spaced authors. */
  lemma SplitJoinedAuthors(authors: seq<string>)
    requires |authors| >= 1
    requires forall k :: 0 <= k < |authors| ==> ',' !in authors[k]
    ensures Split(Join(authors, AuthorSeparator), ',') == Spaced(authors)
  {
    JoinWithSpace(authors);
    var s := Spaced(authors);
    forall k | 0 <= k < |s| ensures ',' !in s[k] {
      if k > 0 {
        assert s[k] == " " + authors[k];
      }
    }
    SplitJoin(s, ',');
  }

  /** The authors stored in the metadata read back as the same list through
      the author-field rule of the processor, provided there is at least one
      and each is trimmed and free of commas, as every list that rule yields
      is. */
  lemma StoredAuthorsReadBack(authors: seq<string>)
    requires |authors| >= 1
    requires forall k :: 0 <= k < |authors| ==> IsTrimmed(authors[k]) && ',' !in authors[k]
    ensures SplitAuthors(Join(authors, AuthorSeparator)) == authors
  {
    SplitJoinedAuthors(authors);
    var r := SplitAuthors(Join(authors, AuthorSeparator));
    forall k | 0 <= k < |authors| ensures r[k] == authors[k] {
      SpacedStripsBack(authors, k);
    }
  }

  // ---------------------------------------------------------------------------
  // Chunk identifiers
  // ---------------------------------------------------------------------------

  /** The identifier of chunk `i` of the paper titled `title`. */
  function ChunkId(title: string, i: nat): (id: string)
    ensures StartsWith(id, title + "-") && |id| > |title| + 1
    ensures forall k :: |title| < k < |id| ==> IsDigit(id[k])
  {
    var id := title + "-" + NatToString(i);
    assert id[..|title| + 1] == title + "-";
    id
  }

  /** Reads an identifier back as the title before its last "-" and the
      number after it. */
  function ParseChunkId(id: string): Option<(string, nat)> {
    var d := RFindChar(id, '-');
    if d == -1 then None
    else
      var digits := id[d + 1..];
      if digits != [] && forall i :: 0 <= i < |digits| ==> IsDigit(digits[i])
      then Some((id[..d], ParseNat(digits)))
      else None
  }

  /** Every chunk identifier reads back as its title and number: the number
      has no "-", so the last "-" is the one after the title. */
  lemma ChunkIdRoundTrip(title: string, i: nat)
    ensures ParseChunkId(ChunkId(title, i)) == Some((title, i))
  {
    var id := ChunkId(title, i);
    var digits := NatToString(i);
    assert id[|title|] == '-';
    assert id[|title| + 1..] == digits;
    assert id[..|title|] == title;
    var d := RFindChar(id, '-');
    assert d == |title|;
    ParseNatToString(i);
  }

  /** Two chunk identifiers are equal exactly when title and number are, so
      two papers with the same title produce the same identifiers. */
  lemma ChunkIdInjective(t1: string, i: nat, t2: string, j: nat)
    ensures ChunkId(t1, i) == ChunkId(t2, j) <==> t1 == t2 && i == j
  {
    ChunkIdRoundTrip(t1, i);
    ChunkIdRoundTrip(t2, j);
  }

  /** The identifiers of a paper's chunks: one per chunk, numbered from 0. */
  function ChunkIds(title: string, n: nat): (ids: seq<string>)
    ensures |ids| == n
    ensures forall i :: 0 <= i < n ==> ids[i] == ChunkId(title, i)
  {
    seq(n, i requires 0 <= i < n => ChunkId(title, i))
  }

  /** The identifiers of one paper are pairwise distinct, and each begins
      with the title followed by "-". */
  lemma ChunkIdsDistinct(title: string, n: nat)
    ensures forall i, j :: 0 <= i < j < n ==> ChunkIds(title, n)[i] != ChunkIds(title, n)[j]
    ensures forall i :: 0 <= i < n ==> StartsWith(ChunkIds(title, n)[i], title + "-")
  {
    var ids := ChunkIds(title, n);
    forall i, j | 0 <= i < j < n ensures ids[i] != ids[j] {
      ChunkIdInjective(title, i, title, j);
    }
    forall i | 0 <= i < n ensures StartsWith(ids[i], title + "-") {
      assert ids[i][..|title| + 1] == title + "-";
    }
  }

  // ---------------------------------------------------------------------------
  // Adding a paper
  // ---------------------------------------------------------------------------

  /** One document per chunk: the chunk's text, the paper's metadata and the
      chunk's identifier under "chunk_id". */
  function ChunkDocuments(m: PaperMetadata, chunks: seq<string>): (docs: seq<Document>)
    ensures |docs| == |chunks|
    ensures forall i :: 0 <= i < |docs| ==> docs[i].pageContent == chunks[i]
    ensures forall i :: 0 <= i < |docs| ==>
              docs[i].metadata.Keys == PaperFields(m).Keys + {ChunkIdKey}
              && docs[i].metadata[ChunkIdKey] == ChunkId(m.title, i)
    ensures forall i, k :: 0 <= i < |docs| && k in PaperFields(m) ==>
              docs[i].metadata[k] == PaperFields(m)[k]
  {
    var fields := PaperFields(m);
    seq(|chunks|, i requires 0 <= i < |chunks| =>
      Document(chunks[i], fields[ChunkIdKey := ChunkId(m.title, i)]))
  }

  /** The records the store keeps for documents added under `ids`. */
  function Records(ids: seq<string>, docs: seq<Document>): (rs: seq<Record>)
    requires |ids| == |docs|
    ensures |rs| == |ids|
    ensures forall i :: 0 <= i < |rs| ==>
              rs[i] == Record(ids[i], docs[i].pageContent, Some(docs[i].metadata))
  {
    seq(|ids|, i requires 0 <= i < |ids| => Record(ids[i], docs[i].pageContent, Some(docs[i].metadata)))
  }

  // ---------------------------------------------------------------------------
  // Listing papers
  // ---------------------------------------------------------------------------

  /** Metadata that is present and has a title. */
  predicate HasTitle(md: Option<Metadata>) {
    md.Some? && TitleKey in md.value
  }

  /** The metadata a delete by `title` matches. */
  predicate Matches(md: Option<Metadata>, title: string) {
    HasTitle(md) && md.value[TitleKey] == title
  }

  /** The metadata of the records, in store order. */
  function Metadatas(c: seq<Record>): (ms: seq<Option<Metadata>>)
    ensures |ms| == |c|
    ensures forall i :: 0 <= i < |c| ==> ms[i] == c[i].metadata
  {
    seq(|c|, i requires 0 <= i < |c| => c[i].metadata)
  }

  /** The titles of listed papers. */
  function Titles(ps: seq<Metadata>): (ts: seq<string>)
    requires forall k :: 0 <= k < |ps| ==> TitleKey in ps[k]
    ensures |ts| == |ps|
    ensures forall k :: 0 <= k < |ps| ==> ts[k] == ps[k][TitleKey]
  {
    seq(|ps|, k requires 0 <= k < |ps| => ps[k][TitleKey])
  }

  /** One more listed entry adds its title at the end. */
  lemma TitlesSnoc(ps: seq<Metadata>, p: Metadata)
    requires forall k :: 0 <= k < |ps| ==> TitleKey in ps[k]
    requires TitleKey in p
    ensures Titles(ps + [p]) == Titles(ps) + [p[TitleKey]]
  {
  }

  /** The scan of `get_all_papers`: each record with a title is kept unless
      a record with that title was kept already. */
  function UniqueByTitle(ms: seq<Option<Metadata>>): (ps: seq<Metadata>)
    ensures forall k :: 0 <= k < |ps| ==> TitleKey in ps[k]
  {
    if ms == [] then []
    else
      var prev := UniqueByTitle(ms[..|ms| - 1]);
      var md := ms[|ms| - 1];
      if HasTitle(md) && md.value[TitleKey] !in Titles(prev) then prev + [md.value] else prev
  }

  /** The index of the first record titled `title`, or -1 when there is none. */
  function FirstTitled(ms: seq<Option<Metadata>>, title: string): (i: int)
    ensures -1 <= i < |ms|
    ensures i == -1 ==> forall j :: 0 <= j < |ms| ==> !Matches(ms[j], title)
    ensures i != -1 ==> Matches(ms[i], title) && forall j :: 0 <= j < i ==> !Matches(ms[j], title)
  {
    if ms == [] then -1
    else
      var i := FirstTitled(ms[..|ms| - 1], title);
      if i != -1 then i
      else if Matches(ms[|ms| - 1], title) then |ms| - 1
      else -1
  }

  /** One more record either adds its metadata at the end of the listing or
      leaves the listing as it was. */
  lemma UniqueByTitleSnoc(ms: seq<Option<Metadata>>, md: Option<Metadata>)
    ensures var ps := UniqueByTitle(ms);
            UniqueByTitle(ms + [md])
            == if HasTitle(md) && md.value[TitleKey] !in Titles(ps) then ps + [md.value] else ps
  {
    assert (ms + [md])[..|ms|] == ms;
  }

  /** The listing holds each title once, and every record with a title has
      its title listed. */
  lemma {:induction false} ListingCoversTitlesOnce(ms: seq<Option<Metadata>>)
    ensures var ts := Titles(UniqueByTitle(ms));
            forall k1, k2 :: 0 <= k1 < k2 < |ts| ==> ts[k1] != ts[k2]
    ensures var ts := Titles(UniqueByTitle(ms));
            forall i :: 0 <= i < |ms| && HasTitle(ms[i]) ==> ms[i].value[TitleKey] in ts
  {
    if ms != [] {
      var init := ms[..|ms| - 1];
      var md := ms[|ms| - 1];
      ListingCoversTitlesOnce(init);
      UniqueByTitleSnoc(init, md);
      assert init + [md] == ms;
      var prev := Titles(UniqueByTitle(init));
      var ts := Titles(UniqueByTitle(ms));
      if HasTitle(md) && md.value[TitleKey] !in prev {
        assert ts == prev + [md.value[TitleKey]];
      } else {
        assert ts == prev;
      }
      forall i | 0 <= i < |ms| && HasTitle(ms[i]) ensures ms[i].value[TitleKey] in ts {
        if i < |init| {
          assert ms[i] == init[i];
        }
      }
    }
  }

  /** One more record leaves every earlier first occurrence where it was. */
  lemma FirstTitledSnoc(ms: seq<Option<Metadata>>, md: Option<Metadata>, title: string)
    ensures var i := FirstTitled(ms, title);
            FirstTitled(ms + [md], title)
            == if i != -1 then i else if Matches(md, title) then |ms| else -1
  {
    assert (ms + [md])[..|ms|] == ms;
  }

  /** Each listed entry is the metadata of the first record with its title,
      and entries come in the order their titles first appear. */
  lemma {:induction false} ListingKeepsFirstInOrder(ms: seq<Option<Metadata>>)
    ensures var ps := UniqueByTitle(ms);
            forall k :: 0 <= k < |ps| ==>
              var i := FirstTitled(ms, ps[k][TitleKey]);
              0 <= i && ms[i] == Some(ps[k])
    ensures var ps := UniqueByTitle(ms);
            forall k1, k2 :: 0 <= k1 < k2 < |ps| ==>
              FirstTitled(ms, ps[k1][TitleKey]) < FirstTitled(ms, ps[k2][TitleKey])
  {
    if ms != [] {
      var init := ms[..|ms| - 1];
      var md := ms[|ms| - 1];
      assert init + [md] == ms;
      ListingKeepsFirstInOrder(init);
      UniqueByTitleSnoc(init, md);
      var prev := UniqueByTitle(init);
      var ps := UniqueByTitle(ms);
      assert ps[..|prev|] == prev;
      forall k | 0 <= k < |prev|
        ensures FirstTitled(ms, prev[k][TitleKey]) == FirstTitled(init, prev[k][TitleKey]) < |init|
        ensures ms[FirstTitled(ms, prev[k][TitleKey])] == Some(prev[k])
      {
        FirstTitledSnoc(init, md, prev[k][TitleKey]);
      }
      if |ps| > |prev| {
        var t := md.value[TitleKey];
        ListingCoversTitlesOnce(init);
        assert forall i :: 0 <= i < |init| ==> !Matches(init[i], t);
        FirstTitledSnoc(init, md, t);
        assert ps[|prev|] == md.value;
      }
    }
  }

  // ---------------------------------------------------------------------------
  // Deleting a paper
  // ---------------------------------------------------------------------------

  /** The store without the records whose title is `title`; records without
      metadata or without a title stay. */
  function RemoveTitle(c: seq<Record>, title: string): (r: seq<Record>)
    ensures |r| <= |c|
    ensures forall i :: 0 <= i < |r| ==> !Matches(r[i].metadata, title)
    ensures forall i :: 0 <= i < |c| && !Matches(c[i].metadata, title) ==> c[i] in r
    ensures forall i :: 0 <= i < |r| ==> r[i] in c
  {
    if c == [] then []
    else
      var rest := RemoveTitle(c[..|c| - 1], title);
      var last := c[|c| - 1];
      assert forall i :: 0 <= i < |c| - 1 ==> c[i] == c[..|c| - 1][i];
      if Matches(last.metadata, title) then rest else rest + [last]
  }

  /** The listing without the entry titled `title`. */
  function DropListed(ps: seq<Metadata>, title: string): (r: seq<Metadata>)
    requires forall k :: 0 <= k < |ps| ==> TitleKey in ps[k]
    ensures forall k :: 0 <= k < |r| ==> TitleKey in r[k] && r[k][TitleKey] != title
  {
    if ps == [] then []
    else
      var rest := DropListed(ps[..|ps| - 1], title);
      var last := ps[|ps| - 1];
      if last[TitleKey] == title then rest else rest + [last]
  }

  /** Dropping a title from a listing keeps every other title. */
  lemma {:induction false} DropListedTitles(ps: seq<Metadata>, title: string, t: string)
    requires forall k :: 0 <= k < |ps| ==> TitleKey in ps[k]
    requires t != title
    ensures t in Titles(DropListed(ps, title)) <==> t in Titles(ps)
  {
    if ps != [] {
      var init := ps[..|ps| - 1];
      DropListedTitles(init, title, t);
      assert Titles(ps) == Titles(init) + [ps[|ps| - 1][TitleKey]];
      var rest := DropListed(init, title);
      if ps[|ps| - 1][TitleKey] != title {
        assert Titles(rest + [ps[|ps| - 1]]) == Titles(rest) + [ps[|ps| - 1][TitleKey]];
      }
    }
  }

  /** The metadata of one more record is one more metadata entry. */
  lemma MetadatasSnoc(c: seq<Record>, r: Record)
    ensures Metadatas(c + [r]) == Metadatas(c) + [r.metadata]
  {
  }

  /** Dropping a title from a listing with one more entry. */
  lemma DropListedSnoc(ps: seq<Metadata>, p: Metadata, title: string)
    requires forall k :: 0 <= k < |ps| ==> TitleKey in ps[k]
    requires TitleKey in p
    ensures DropListed(ps + [p], title)
            == DropListed(ps, title) + if p[TitleKey] == title then [] else [p]
  {
    assert (ps + [p])[..|ps|] == ps;
  }

  /** Listing after a delete by title is the listing before it without that
      title's entry: the deleted paper is gone and every other entry is
      unchanged and in the same order. */
  lemma {:induction false} DeleteThenList(c: seq<Record>, title: string)
    ensures UniqueByTitle(Metadatas(RemoveTitle(c, title)))
            == DropListed(UniqueByTitle(Metadatas(c)), title)
  {
    if c != [] {
      var init := c[..|c| - 1];
      var last := c[|c| - 1];
      assert init + [last] == c;
      DeleteThenList(init, title);
      MetadatasSnoc(init, last);
      UniqueByTitleSnoc(Metadatas(init), last.metadata);
      var kept := RemoveTitle(init, title);
      var before := UniqueByTitle(Metadatas(init));
      if Matches(last.metadata, title) {
        assert RemoveTitle(c, title) == kept;
        if last.metadata.value[TitleKey] !in Titles(before) {
          DropListedSnoc(before, last.metadata.value, title);
        }
      } else {
        assert RemoveTitle(c, title) == kept + [last];
        MetadatasSnoc(kept, last);
        UniqueByTitleSnoc(Metadatas(kept), last.metadata);
        if HasTitle(last.metadata) {
          DropListedTitles(before, title, last.metadata.value[TitleKey]);
          DropListedSnoc(before, last.metadata.value, title);
        }
      }
    }
  }

  // ---------------------------------------------------------------------------
  // The store
  // ---------------------------------------------------------------------------

  /** The vector store, reduced to its records in insertion order. */
  class VectorDBStorage {
    var collection: seq<Record>

    /** A new store over an existing collection. */
    constructor (records: seq<Record>)
      ensures collection == records
    {
      collection := records;
    }

    /** `add_paper`: one document and one identifier per chunk of the
        paper's text, added to the store; returns the identifiers. The
        chunks are what the text splitter made of the paper's text. */
    method AddPaper(paper: PaperContent, chunks: seq<string>) returns (ids: seq<string>)
      modifies this
      ensures ids == ChunkIds(paper.metadata.title, |chunks|)
      ensures collection == old(collection) + Records(ids, ChunkDocuments(paper.metadata, chunks))
    {
      var documents := ChunkDocuments(paper.metadata, chunks);
      ids := ChunkIds(paper.metadata.title, |chunks|);
      collection := collection + Records(ids, documents);
    }

    /** `get_all_papers`: the metadata of the first record of every title,
        in the order titles first appear, built in a title-keyed dictionary
        that remembers insertion order. */
    method GetAllPapers() returns (papers: seq<Metadata>)
      ensures papers == UniqueByTitle(Metadatas(collection))
    {
      var metadatas := Metadatas(collection);
      var byTitle: map<string, Metadata> := map[];
      var order: seq<string> := [];
      ghost var listed: seq<Metadata> := [];
      for i := 0 to |metadatas|
        invariant listed == UniqueByTitle(metadatas[..i])
        invariant order == Titles(listed)
        invariant forall t :: t in byTitle <==> t in order
        invariant forall k :: 0 <= k < |order| ==> byTitle[order[k]] == listed[k]
      {
        var metadata := metadatas[i];
        assert metadatas[..i + 1] == metadatas[..i] + [metadata];
        UniqueByTitleSnoc(metadatas[..i], metadata);
        if metadata.Some? && TitleKey in metadata.value {
          var title := metadata.value[TitleKey];
          if title !in byTitle {
            TitlesSnoc(listed, metadata.value);
            byTitle := byTitle[title := metadata.value];
            order := order + [title];
            listed := listed + [metadata.value];
            assert forall k :: 0 <= k < |order| - 1 ==> order[k] != title;
          } else {
            assert listed == UniqueByTitle(metadatas[..i + 1]);
          }
        } else {
          assert !HasTitle(metadata);
        }
      }
      assert metadatas[..|metadatas|] == metadatas;
      papers := seq(|order|, k requires 0 <= k < |order| => byTitle[order[k]]);
    }

    /** `delete_paper`: removes every record whose title is `title`. */
    method DeletePaper(title: string)
      modifies this
      ensures collection == RemoveTitle(old(collection), title)
    {
      collection := RemoveTitle(collection, title);
    }
  }

  /** After a paper with at least one chunk is added, the listing is the
      listing before, plus the paper's first chunk metadata when its title
      was not listed yet. */
  lemma AddThenList(c: seq<Record>, m: PaperMetadata, chunks: seq<string>)
    requires chunks != []
    ensures var before := UniqueByTitle(Metadatas(c));
            var docs := ChunkDocuments(m, chunks);
            var after := UniqueByTitle(Metadatas(c + Records(ChunkIds(m.title, |chunks|), docs)));
            after == if m.title in Titles(before) then before else before + [docs[0].metadata]
  {
    var docs := ChunkDocuments(m, chunks);
    var added := Records(ChunkIds(m.title, |chunks|), docs);
    AddedRecordsTitled(m, chunks);
    MetadatasAppend(c, added);
    AddSameTitle(Metadatas(c), Metadatas(added), m.title);
  }

  /** Every record added for one paper carries the paper's title, and the
      first carries the first chunk's metadata. */
  lemma AddedRecordsTitled(m: PaperMetadata, chunks: seq<string>)
    requires chunks != []
    ensures var docs := ChunkDocuments(m, chunks);
            var ns := Metadatas(Records(ChunkIds(m.title, |chunks|), docs));
            |ns| == |chunks| && ns[0] == Some(docs[0].metadata)
            && forall i :: 0 <= i < |ns| ==> ns[i].Some? && TitleKey in ns[i].value && ns[i].value[TitleKey] == m.title
  {
    var docs := ChunkDocuments(m, chunks);
    var ns := Metadatas(Records(ChunkIds(m.title, |chunks|), docs));
    forall i | 0 <= i < |ns|
      ensures ns[i].Some? && TitleKey in ns[i].value && ns[i].value[TitleKey] == m.title
    {
      assert ns[i] == Some(docs[i].metadata);
      assert TitleKey in PaperFields(m);
    }
  }

  /** The metadata of two runs of records is the metadata of each, in order. */
  lemma MetadatasAppend(c: seq<Record>, d: seq<Record>)
    ensures Metadatas(c + d) == Metadatas(c) + Metadatas(d)
  {
  }

  /** Appending records that all carry the same title lists that title's
      first new record, unless the title was listed already. */
  lemma {:induction false} AddSameTitle(ms: seq<Option<Metadata>>, ns: seq<Option<Metadata>>, title: string)
    requires ns != []
    requires forall i :: 0 <= i < |ns| ==> ns[i].Some? && TitleKey in ns[i].value && ns[i].value[TitleKey] == title
    ensures var before := UniqueByTitle(ms);
            UniqueByTitle(ms + ns) == if title in Titles(before) then before else before + [ns[0].value]
  {
    var before := UniqueByTitle(ms);
    if |ns| == 1 {
      assert ms + ns == ms + [ns[0]];
      UniqueByTitleSnoc(ms, ns[0]);
    } else {
      var init := ns[..|ns| - 1];
      var last := ns[|ns| - 1];
      assert init[0] == ns[0];
      AddSameTitle(ms, init, title);
      assert ms + ns == (ms + init) + [last];
      UniqueByTitleSnoc(ms + init, last);
      var mid := UniqueByTitle(ms + init);
      assert title in Titles(mid) by {
        if title !in Titles(before) {
          assert mid[|before|] == ns[0].value;
        }
      }
    }
  }
}
