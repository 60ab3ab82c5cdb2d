/**
 * The notes page's query: the current user's notes ordered by date, newest
 * first.  A listing is a sequence of entries, each a note row with its key.
 */
module Listing {
  import opened Models

  datatype Entry = Entry(id: NoteId, note: Note)

  /** Dates never increase along the listing (`ORDER BY note_date DESC`). */
  predicate NewestFirst(xs: seq<Entry>) {
    forall i, j :: 0 <= i < j < |xs| ==> xs[i].note.date >= xs[j].note.date
  }

  function Ids(xs: seq<Entry>): set<NoteId> {
    set e | e in xs :: e.id
  }

  /** No note appears twice: there are as many distinct ids as entries. */
  predicate DistinctIds(xs: seq<Entry>) {
    |Ids(xs)| == |xs|
  }

  /** Every entry is the row the table holds under its key. */
  predicate RowsOf(xs: seq<Entry>, notes: map<NoteId, Note>) {
    forall e :: e in xs ==> e.id in notes && notes[e.id] == e.note
  }

  /** Dropping the newest entry leaves a newest-first listing. */
  lemma TailNewestFirst(xs: seq<Entry>)
    requires NewestFirst(xs) && xs != []
    ensures NewestFirst(xs[1..])
  {
  }

  /** An entry not older than the head may go in front. */
  lemma PrependNewest(x: Entry, ys: seq<Entry>)
    requires NewestFirst(ys)
    requires ys == [] || x.note.date >= ys[0].note.date
    ensures NewestFirst([x] + ys)
  {
  }

  /**
   * Puts `e` into a newest-first listing: before the first entry that is
   * not newer than it.
   */
  function InsertByDate(xs: seq<Entry>, e: Entry): (r: seq<Entry>)
    requires NewestFirst(xs)
    ensures NewestFirst(r)
    ensures |r| == |xs| + 1
    ensures r[0] == e || (xs != [] && r[0] == xs[0])
  {
    if xs == [] then [e]
    else if e.note.date >= xs[0].note.date then
      PrependNewest(e, xs);
      [e] + xs
    else
      TailNewestFirst(xs);
      var rest := InsertByDate(xs[1..], e);
      PrependNewest(xs[0], rest);
      [xs[0]] + rest
  }

  /** Insertion is a permutation: the result holds the old entries and `e`, each as often as before. */
  lemma {:induction false} InsertByDatePermutes(xs: seq<Entry>, e: Entry)
    requires NewestFirst(xs)
    ensures multiset(InsertByDate(xs, e)) == multiset(xs) + multiset{e}
  {
    if xs != [] && e.note.date < xs[0].note.date {
      TailNewestFirst(xs);
      InsertByDatePermutes(xs[1..], e);
      assert xs == [xs[0]] + xs[1..];
      assert InsertByDate(xs, e) == [xs[0]] + InsertByDate(xs[1..], e);
    }
  }

  /**
   * The entries present after an insertion are the old ones and `e`, and a
   * note not yet listed ends up listed exactly once.
   */
  lemma InsertByDateMembers(xs: seq<Entry>, e: Entry)
    requires NewestFirst(xs)
    ensures forall x :: x in InsertByDate(xs, e) <==> x in xs || x == e
    ensures Ids(InsertByDate(xs, e)) == Ids(xs) + {e.id}
    ensures DistinctIds(xs) && e.id !in Ids(xs) ==> DistinctIds(InsertByDate(xs, e))
  {
  }

  /**
   * One step of building the notes page: a note still to be listed goes
   * into its place, and the listing stays a newest-first, duplicate-free
   * selection of the table's rows.
   */
  lemma ListingStep(notes: map<NoteId, Note>, wanted: set<NoteId>, pending: set<NoteId>,
                    listed: seq<Entry>, id: NoteId)
    requires wanted <= notes.Keys && pending <= wanted && id in pending
    requires Ids(listed) == wanted - pending
    requires RowsOf(listed, notes) && DistinctIds(listed) && NewestFirst(listed)
    ensures var listed' := InsertByDate(listed, Entry(id, notes[id]));
      && Ids(listed') == wanted - (pending - {id})
      && RowsOf(listed', notes) && DistinctIds(listed') && NewestFirst(listed')
  {
    var e := Entry(id, notes[id]);
    InsertByDateMembers(listed, e);
    assert wanted - (pending - {id}) == (wanted - pending) + {id};
  }
}
