/**
 * The task search index (search/bleve.go): the flat document a task is encoded
 * into, upsert and delete by stringified id, and the owner-scoped search.
 *
 * The full-text engine itself (analysis, query-string parsing, scoring,
 * highlighting) is not modelled: an `Engine` value supplies it as functions
 * about which nothing is assumed. The conjunction with the owner term query
 * is interpreted here, which is what owner isolation rests on.
 */
module SearchIndex {
  import opened Wrappers
  import opened Decimal
  import opened Models
  import opened Seqs

  /** Highlighted fragments keyed by field name. */
  type Fragments = map<string, seq<string>>

  /** The indexed document of a task: its id, title, note text and owner. */
  datatype TaskDoc = TaskDoc(id: nat, title: string, content: string, userId: string)

  /** The process-wide index handle; it is nil when it was never opened. */
  datatype TaskIndex = Uninitialised | Ready(docs: map<string, TaskDoc>)

  /** Hits returned per search. */
  const SearchSize: nat := 10

  const UserField: string := "user_id"
  const TitleField: string := "title"
  const ContentField: string := "content"

  const NotInitialised: string := "index not initialized"

  /** The key a task's document is stored under; it parses back to the id. */
  function IdKey(id: nat): (k: string)
    ensures Atoi(k) == Some(id) && AtoiOrZero(k) == id
  {
    AtoiItoa(id);
    Itoa(id)
  }

  lemma IdKeyInjective(a: nat, b: nat)
    ensures IdKey(a) == IdKey(b) <==> a == b
  {
    ItoaInjective(a, b);
  }

  /** Every document is stored under the key of its own id. */
  predicate WellKeyed(docs: map<string, TaskDoc>) {
    forall k :: k in docs ==> k == IdKey(docs[k].id)
  }

  // ---------------------------------------------------------------- encoding

  /** Total length of the notes' contents. */
  function ContentLength(notes: seq<Note>): nat {
    if |notes| == 0 then 0
    else ContentLength(notes[..|notes| - 1]) + |notes[|notes| - 1].content|
  }

  /** Every note's content followed by one space, in note order. */
  function NoteText(notes: seq<Note>): (text: string)
    ensures |text| == ContentLength(notes) + |notes|
  {
    if |notes| == 0 then ""
    else NoteText(notes[..|notes| - 1]) + notes[|notes| - 1].content + " "
  }

  /** Where the `i`-th note's content starts in the note text. */
  function NoteOffset(notes: seq<Note>, i: nat): nat
    requires i <= |notes|
  {
    ContentLength(notes[..i]) + i
  }

  /** The note text is laid out note by note: content `i` sits at its offset and is followed by a space. */
  lemma {:induction false} NoteTextLayout(notes: seq<Note>, i: nat)
    requires i < |notes|
    ensures NoteOffset(notes, i) + |notes[i].content| < |NoteText(notes)|
    ensures NoteText(notes)[NoteOffset(notes, i)..NoteOffset(notes, i) + |notes[i].content|]
         == notes[i].content
    ensures NoteText(notes)[NoteOffset(notes, i) + |notes[i].content|] == ' '
    decreases |notes|
  {
    var last := |notes| - 1;
    var front := notes[..last];
    var head := NoteText(front);
    var tail := notes[last].content + " ";
    assert NoteText(notes) == head + tail;
    assert notes[..last] == front;
    if i < last {
      NoteTextLayout(front, i);
      assert front[..i] == notes[..i];
      assert front[i] == notes[i];
      var off := NoteOffset(notes, i);
      var end := off + |notes[i].content|;
      PrefixSlice(head, tail, off, end);
    } else {
      assert notes[..last + 1] == notes;
      assert |head| == NoteOffset(notes, last);
      SuffixSlice(head, tail, notes[last].content);
    }
  }

  /** Slicing a concatenation inside its first part. */
  lemma PrefixSlice(a: string, b: string, lo: nat, hi: nat)
    requires lo <= hi < |a|
    ensures (a + b)[lo..hi] == a[lo..hi] && (a + b)[hi] == a[hi]
  {
  }

  /** The second part of a concatenation, content then a space. */
  lemma SuffixSlice(a: string, b: string, content: string)
    requires b == content + " "
    ensures (a + b)[|a|..|a| + |content|] == content && (a + b)[|a| + |content|] == ' '
  {
    assert (a + b)[|a|..|a| + |content|] == b[..|content|];
  }

  /** Adding a note to a task appends its content and a space to the note text. */
  lemma NoteTextAppend(notes: seq<Note>, n: Note)
    ensures NoteText(notes + [n]) == NoteText(notes) + n.content + " "
  {
    assert (notes + [n])[..|notes|] == notes;
  }

  /** The document of a task: id and title copied, notes concatenated, owner as decimal text. */
  function EncodeTask(task: Task): (doc: TaskDoc)
    ensures doc.id == task.id && doc.title == task.title
    ensures doc.userId == Itoa(task.userId) && Atoi(doc.userId) == Some(task.userId)
    ensures doc.content == NoteText(task.notes)
    ensures |doc.content| == ContentLength(task.notes) + |task.notes|
    ensures |task.notes| == 0 ==> doc.content == ""
  {
    AtoiItoa(task.userId);
    TaskDoc(task.id, task.title, NoteText(task.notes), Itoa(task.userId))
  }

  // ------------------------------------------------------- upsert and delete

  /** Upserts the task's document under its id; does nothing when the index is nil. */
  function IndexTask(ix: TaskIndex, task: Task): (r: TaskIndex)
    ensures ix.Uninitialised? ==> r == ix
    ensures ix.Ready? ==> r.Ready?
    ensures ix.Ready? ==> r.docs.Keys == ix.docs.Keys + {IdKey(task.id)}
    ensures ix.Ready? ==> r.docs[IdKey(task.id)] == EncodeTask(task)
    ensures ix.Ready? ==> forall k :: k in ix.docs && k != IdKey(task.id) ==> r.docs[k] == ix.docs[k]
    ensures ix.Ready? && WellKeyed(ix.docs) ==> WellKeyed(r.docs)
  {
    match ix
    case Uninitialised => ix
    case Ready(docs) => Ready(docs[IdKey(task.id) := EncodeTask(task)])
  }

  /** Removes the document under the task's id; deleting a missing key is not an error. */
  function DeleteTask(ix: TaskIndex, taskId: nat): (r: TaskIndex)
    ensures ix.Uninitialised? ==> r == ix
    ensures ix.Ready? ==> r.Ready? && r.docs.Keys == ix.docs.Keys - {IdKey(taskId)}
    ensures ix.Ready? ==> forall k :: k in r.docs ==> r.docs[k] == ix.docs[k]
    ensures ix.Ready? && WellKeyed(ix.docs) ==> WellKeyed(r.docs)
  {
    match ix
    case Uninitialised => ix
    case Ready(docs) => Ready(docs - {IdKey(taskId)})
  }

  /** Deleting a task's document undoes indexing it. */
  lemma DeleteUndoesIndex(ix: TaskIndex, task: Task)
    requires ix.Ready? && IdKey(task.id) !in ix.docs
    ensures DeleteTask(IndexTask(ix, task), task.id) == ix
  {
    assert DeleteTask(IndexTask(ix, task), task.id).docs == ix.docs;
  }

  // ------------------------------------------------------------------ search

  /** A query tree: the owner term query conjoined with the user's query string. */
  datatype Query =
    | TermQuery(field: string, term: string)
    | QueryStringQuery(text: string)
    | ConjunctionQuery(left: Query, right: Query)

  /**
   * The full-text engine. `matches` decides whether a document satisfies a
   * non-empty query string, `rank` lists the index's keys by relevance for a
   * query, `highlight` gives a hit's fragments, and `failure` says whether the
   * engine reports an error for a search.
   */
  datatype Engine = Engine(
    matches: (TaskDoc, string) -> bool,
    rank: (map<string, TaskDoc>, Query) -> seq<string>,
    highlight: (TaskDoc, Query) -> Fragments,
    failure: (map<string, TaskDoc>, Query) -> Option<string>)

  /** The stored text of a document field. */
  function FieldText(doc: TaskDoc, field: string): Option<string> {
    if field == UserField then Some(doc.userId)
    else if field == TitleField then Some(doc.title)
    else if field == ContentField then Some(doc.content)
    else None
  }

  /** The term and query-string clauses of a query, conjunctions flattened, left to right. */
  function Clauses(q: Query): seq<Query> {
    match q
    case ConjunctionQuery(l, r) => Clauses(l) + Clauses(r)
    case _ => [q]
  }

  /** Whether a document satisfies one term or query-string clause; an empty query string matches nothing. */
  predicate ClauseHolds(e: Engine, doc: TaskDoc, q: Query) {
    match q
    case TermQuery(field, term) => FieldText(doc, field) == Some(term)
    case QueryStringQuery(text) => text != "" && e.matches(doc, text)
    case ConjunctionQuery(_, _) => false
  }

  /** Whether a document satisfies a query: a conjunction holds exactly when every one of its clauses does. */
  function Satisfies(e: Engine, doc: TaskDoc, q: Query): (b: bool)
    ensures b <==> forall c :: c in Clauses(q) ==> ClauseHolds(e, doc, c)
  {
    match q
    case ConjunctionQuery(l, r) => Satisfies(e, doc, l) && Satisfies(e, doc, r)
    case _ => ClauseHolds(e, doc, q)
  }

  /**
   * The query SearchTasks sends: owner term AND the user's text. A document
   * satisfies it exactly when it is the user's and matches the non-empty text.
   */
  function OwnerQuery(userId: nat, text: string): (q: Query)
    ensures forall e: Engine, doc: TaskDoc ::
      Satisfies(e, doc, q) <==> doc.userId == Itoa(userId) && text != "" && e.matches(doc, text)
  {
    ConjunctionQuery(TermQuery(UserField, Itoa(userId)), QueryStringQuery(text))
  }

  /** The keys of `keys` that name a stored document satisfying `q`, in the same order. */
  function Satisfying(e: Engine, docs: map<string, TaskDoc>, q: Query, keys: seq<string>): (r: seq<string>)
    ensures IsSubsequence(r, keys)
    ensures forall k :: k in r <==> k in keys && k in docs && Satisfies(e, docs[k], q)
    decreases |keys|
  {
    if |keys| == 0 then []
    else
      var rest := Satisfying(e, docs, q, keys[1..]);
      assert keys == [keys[0]] + keys[1..];
      if keys[0] in docs && Satisfies(e, docs[keys[0]], q) then
        SubsequenceCons(keys[0], rest, keys[1..]);
        [keys[0]] + rest
      else
        SubsequenceSkip(keys[0], rest, keys[1..]);
        rest
  }

  /** One engine hit: the stored key and its highlighted fragments. */
  datatype Hit = Hit(key: string, fragments: Fragments)

  function HitKeys(hits: seq<Hit>): (keys: seq<string>)
    ensures |keys| == |hits|
    ensures forall i :: 0 <= i < |hits| ==> keys[i] == hits[i].key
  {
    seq(|hits|, i requires 0 <= i < |hits| => hits[i].key)
  }

  /** The engine's ranking lists every stored document that satisfies the query. */
  predicate RanksSatisfying(e: Engine, docs: map<string, TaskDoc>, q: Query) {
    forall k :: k in docs && Satisfies(e, docs[k], q) ==> k in e.rank(docs, q)
  }

  /** The engine's answer: the best `size` satisfying documents, in rank order, with highlights. */
  function RunQuery(e: Engine, docs: map<string, TaskDoc>, q: Query, size: nat): (hits: seq<Hit>)
    ensures |hits| <= size
    ensures forall i :: 0 <= i < |hits| ==>
      hits[i].key in docs && Satisfies(e, docs[hits[i].key], q)
      && hits[i].fragments == e.highlight(docs[hits[i].key], q)
    ensures IsSubsequence(HitKeys(hits), e.rank(docs, q))
    ensures |hits| <= |Satisfying(e, docs, q, e.rank(docs, q))|
    ensures HitKeys(hits) == Satisfying(e, docs, q, e.rank(docs, q))[..|hits|]
    ensures |hits| < size ==> |hits| == |Satisfying(e, docs, q, e.rank(docs, q))|
    ensures |hits| < size && RanksSatisfying(e, docs, q) ==>
      forall k :: k in docs && Satisfies(e, docs[k], q) ==> k in HitKeys(hits)
  {
    var all := Satisfying(e, docs, q, e.rank(docs, q));
    var n := if |all| < size then |all| else size;
    var hits := seq(n, i requires 0 <= i < n => Hit(all[i], e.highlight(docs[all[i]], q)));
    assert HitKeys(hits) == all[..n];
    SubsequencePrefix(all, e.rank(docs, q), n);
    hits
  }

  /** One search result: the task id parsed back from the hit's key, and its fragments. */
  datatype SearchResult = SearchResult(id: nat, fragments: Fragments)

  function ResultIds(results: seq<SearchResult>): (ids: seq<nat>)
    ensures |ids| == |results|
    ensures forall i :: 0 <= i < |results| ==> ids[i] == results[i].id
  {
    seq(|results|, i requires 0 <= i < |results| => results[i].id)
  }

  function ResultKeys(results: seq<SearchResult>): (keys: seq<string>)
    ensures |keys| == |results|
    ensures forall i :: 0 <= i < |results| ==> keys[i] == IdKey(results[i].id)
  {
    seq(|results|, i requires 0 <= i < |results| => IdKey(results[i].id))
  }

  /** On a well-keyed index, parsing a stored key gives the id of the document under it. */
  lemma KeyRoundTrip(docs: map<string, TaskDoc>, k: string)
    requires WellKeyed(docs) && k in docs
    ensures AtoiOrZero(k) == docs[k].id
    ensures IdKey(AtoiOrZero(k)) == k
  {
    AtoiItoa(docs[k].id);
  }

  /**
   * Searches the user's tasks: at most ten hits, each owned by the user and
   * matching the text, in the engine's rank order, each with its own fragments.
   */
  function SearchTasks(ix: TaskIndex, e: Engine, queryStr: string, userId: nat)
    : (r: Result<seq<SearchResult>, string>)
    ensures ix.Uninitialised? ==> r == Failure(NotInitialised)
    ensures ix.Ready? && e.failure(ix.docs, OwnerQuery(userId, queryStr)).Some? ==>
      r == Failure(e.failure(ix.docs, OwnerQuery(userId, queryStr)).value)
    ensures ix.Ready? && e.failure(ix.docs, OwnerQuery(userId, queryStr)).None? ==> r.Success?
    ensures r.Success? ==> |r.value| <= SearchSize
    ensures r.Success? && WellKeyed(ix.docs) ==>
      var all := Satisfying(e, ix.docs, OwnerQuery(userId, queryStr), e.rank(ix.docs, OwnerQuery(userId, queryStr)));
      && |r.value| == (if |all| < SearchSize then |all| else SearchSize)
      && ResultKeys(r.value) == all[..|r.value|]
    ensures r.Success? && WellKeyed(ix.docs) ==>
      forall i :: 0 <= i < |r.value| ==>
        && IdKey(r.value[i].id) in ix.docs
        && ix.docs[IdKey(r.value[i].id)].id == r.value[i].id
        && ix.docs[IdKey(r.value[i].id)].userId == Itoa(userId)
        && queryStr != ""
        && e.matches(ix.docs[IdKey(r.value[i].id)], queryStr)
        && r.value[i].fragments == e.highlight(ix.docs[IdKey(r.value[i].id)], OwnerQuery(userId, queryStr))
    ensures r.Success? && WellKeyed(ix.docs) ==>
      IsSubsequence(ResultKeys(r.value), e.rank(ix.docs, OwnerQuery(userId, queryStr)))
    ensures r.Success? && WellKeyed(ix.docs) && NoDuplicates(e.rank(ix.docs, OwnerQuery(userId, queryStr))) ==>
      NoDuplicates(ResultIds(r.value))
    ensures r.Success? && WellKeyed(ix.docs) && |r.value| < SearchSize
            && RanksSatisfying(e, ix.docs, OwnerQuery(userId, queryStr)) ==>
      forall k ::
        (k in ix.docs && ix.docs[k].userId == Itoa(userId) && queryStr != "" && e.matches(ix.docs[k], queryStr))
        ==> ix.docs[k].id in ResultIds(r.value)
  {
    match ix
    case Uninitialised => Failure(NotInitialised)
    case Ready(docs) =>
      var q := OwnerQuery(userId, queryStr);
      match e.failure(docs, q)
      case Some(err) => Failure(err)
      case None =>
        var hits := RunQuery(e, docs, q, SearchSize);
        var results := seq(|hits|, i requires 0 <= i < |hits| => SearchResult(AtoiOrZero(hits[i].key), hits[i].fragments));
        HitsToResults(docs, hits, results);
        ResultsOwned(e, docs, userId, queryStr, hits, results);
        DistinctKeysDistinctIds(docs, hits, results, e.rank(docs, q));
        ResultsComplete(e, docs, q, hits, results);
        Success(results)
  }

  /** When fewer hits than asked come back and every key was ranked, every satisfying document's id is a result. */
  lemma ResultsComplete(e: Engine, docs: map<string, TaskDoc>, q: Query, hits: seq<Hit>, results: seq<SearchResult>)
    requires |results| == |hits|
    requires forall k :: k in docs && Satisfies(e, docs[k], q) && RanksSatisfying(e, docs, q) && |hits| < SearchSize
               ==> k in HitKeys(hits)
    requires WellKeyed(docs) ==> forall i :: 0 <= i < |hits| ==> hits[i].key in docs && docs[hits[i].key].id == results[i].id
    ensures WellKeyed(docs) && |hits| < SearchSize && RanksSatisfying(e, docs, q) ==>
      forall k :: k in docs && Satisfies(e, docs[k], q) ==> docs[k].id in ResultIds(results)
  {
    if WellKeyed(docs) && |hits| < SearchSize && RanksSatisfying(e, docs, q) {
      forall k | k in docs && Satisfies(e, docs[k], q)
        ensures docs[k].id in ResultIds(results)
      {
        var i :| 0 <= i < |hits| && HitKeys(hits)[i] == k;
        assert ResultIds(results)[i] == docs[k].id;
      }
    }
  }

  /** On a well-keyed index, the results' keys are exactly the hits' keys. */
  lemma HitsToResults(docs: map<string, TaskDoc>, hits: seq<Hit>, results: seq<SearchResult>)
    requires forall i :: 0 <= i < |hits| ==> hits[i].key in docs
    requires |results| == |hits|
    requires forall i :: 0 <= i < |hits| ==> results[i].id == AtoiOrZero(hits[i].key)
    ensures WellKeyed(docs) ==> ResultKeys(results) == HitKeys(hits)
    ensures WellKeyed(docs) ==> forall i :: 0 <= i < |hits| ==> IdKey(results[i].id) == hits[i].key
    ensures WellKeyed(docs) ==> forall i :: 0 <= i < |hits| ==> docs[hits[i].key].id == results[i].id
  {
    if WellKeyed(docs) {
      forall i | 0 <= i < |hits|
        ensures IdKey(results[i].id) == hits[i].key
        ensures docs[hits[i].key].id == results[i].id
      {
        KeyRoundTrip(docs, hits[i].key);
      }
    }
  }

  /** Each result of a well-keyed index names a document of the user that matches the text. */
  lemma ResultsOwned(e: Engine, docs: map<string, TaskDoc>, userId: nat, queryStr: string,
                     hits: seq<Hit>, results: seq<SearchResult>)
    requires forall i :: 0 <= i < |hits| ==>
      hits[i].key in docs && Satisfies(e, docs[hits[i].key], OwnerQuery(userId, queryStr))
      && hits[i].fragments == e.highlight(docs[hits[i].key], OwnerQuery(userId, queryStr))
    requires |results| == |hits|
    requires forall i :: 0 <= i < |hits| ==>
      results[i].id == AtoiOrZero(hits[i].key) && results[i].fragments == hits[i].fragments
    ensures WellKeyed(docs) ==>
      forall i :: 0 <= i < |results| ==>
        && IdKey(results[i].id) in docs
        && docs[IdKey(results[i].id)].id == results[i].id
        && docs[IdKey(results[i].id)].userId == Itoa(userId)
        && queryStr != ""
        && e.matches(docs[IdKey(results[i].id)], queryStr)
        && results[i].fragments == e.highlight(docs[IdKey(results[i].id)], OwnerQuery(userId, queryStr))
  {
    if WellKeyed(docs) {
      forall i | 0 <= i < |results|
        ensures IdKey(results[i].id) == hits[i].key
        ensures docs[hits[i].key].id == results[i].id
        ensures docs[hits[i].key].userId == Itoa(userId)
        ensures queryStr != "" && e.matches(docs[hits[i].key], queryStr)
      {
        KeyRoundTrip(docs, hits[i].key);
      }
    }
  }

  /** On a well-keyed index, a ranking without repeats gives results without repeated ids. */
  lemma DistinctKeysDistinctIds(docs: map<string, TaskDoc>, hits: seq<Hit>, results: seq<SearchResult>,
                                ranking: seq<string>)
    requires |results| == |hits|
    requires IsSubsequence(HitKeys(hits), ranking)
    requires WellKeyed(docs) ==> forall i :: 0 <= i < |hits| ==> IdKey(results[i].id) == hits[i].key
    ensures WellKeyed(docs) && NoDuplicates(ranking) ==> NoDuplicates(ResultIds(results))
  {
    if WellKeyed(docs) && NoDuplicates(ranking) {
      SubsequenceNoDuplicates(HitKeys(hits), ranking);
      var ids := ResultIds(results);
      forall i, j | 0 <= i < j < |ids|
        ensures ids[i] != ids[j]
      {
        assert HitKeys(hits)[i] != HitKeys(hits)[j];
      }
    }
  }
}
