/**
 The search index that the article consumer keeps beside the lists. A message becomes a bulk of
 upserts, one document a row, which several workers send in an order of their own.
 */
module SearchIndex {
  import opened Wrappers
  import opened Queues

  datatype Doc = Doc(author: int, authorName: string, title: string, content: string, description: string,
                     status: int, likeNum: int)

  /** The documents by article id. */
  type Index = map<int, Doc>

  type Upsert = (int, Doc)

  function Upserted(index: Index, docs: seq<Upsert>): Index
    decreases |docs|
  {
    if docs == [] then index
    else Upserted(index[docs[0].0 := docs[0].1], docs[1..])
  }

  /** Two upserts of one article are the same upsert. */
  ghost predicate Agree(docs: seq<Upsert>) {
    forall i, j :: 0 <= i < |docs| && 0 <= j < |docs| && docs[i].0 == docs[j].0 ==> docs[i] == docs[j]
  }

  /** The last upsert of an article is its document. */
  lemma {:induction false} LastUpsertStays(index: Index, docs: seq<Upsert>, id: int)
    ensures id in Upserted(index, docs) <==> LastFor(docs, id).Some? || id in index
    ensures id in Upserted(index, docs) ==>
      Upserted(index, docs)[id] == if LastFor(docs, id).Some? then LastFor(docs, id).value else index[id]
    decreases |docs|
  {
    if docs != [] {
      LastUpsertStays(index[docs[0].0 := docs[0].1], docs[1..], id);
    }
  }

  lemma {:induction false} LastForIsOne(docs: seq<Upsert>, id: int)
    ensures LastFor(docs, id).Some? ==> (id, LastFor(docs, id).value) in docs
    ensures LastFor(docs, id).None? ==> forall doc :: doc in docs ==> doc.0 != id
  {
    if docs != [] {
      LastForIsOne(docs[1..], id);
      assert forall doc :: doc in docs ==> doc == docs[0] || doc in docs[1..];
    }
  }

  lemma SameElements(docs: seq<Upsert>, sent: seq<Upsert>)
    requires multiset(sent) == multiset(docs)
    ensures forall doc :: doc in sent <==> doc in docs
  {
    forall doc
      ensures doc in sent <==> doc in docs
    {
      assert doc in sent <==> doc in multiset(sent);
    }
  }

  lemma AgreeingOrder(index: Index, docs: seq<Upsert>, sent: seq<Upsert>)
    requires multiset(sent) == multiset(docs) && Agree(docs)
    ensures Upserted(index, sent) == Upserted(index, docs)
  {
    hide Upserted, LastFor;
    SameElements(docs, sent);
    forall id
      ensures LastFor(sent, id) == LastFor(docs, id)
      ensures id in Upserted(index, sent) <==> id in Upserted(index, docs)
      ensures id in Upserted(index, sent) ==> Upserted(index, sent)[id] == Upserted(index, docs)[id]
    {
      LastForIsOne(sent, id);
      LastForIsOne(docs, id);
      LastUpsertStays(index, sent, id);
      LastUpsertStays(index, docs, id);
    }
  }

  /** Some order of the bulk has the i-th upsert last. */
  function WithLast(docs: seq<Upsert>, i: nat): (sent: seq<Upsert>)
    requires i < |docs|
    ensures multiset(sent) == multiset(docs)
  {
    assert docs == docs[..i] + [docs[i]] + docs[i + 1..];
    docs[..i] + docs[i + 1..] + [docs[i]]
  }

  /** Every order of a bulk leaves the same index exactly when it has no two versions of an article. */
  lemma BulkIgnoresOrderIff(index: Index, docs: seq<Upsert>)
    ensures (forall sent :: multiset(sent) == multiset(docs) ==> Upserted(index, sent) == Upserted(index, docs)) <==>
      Agree(docs)
  {
    hide Upserted;
    if Agree(docs) {
      forall sent | multiset(sent) == multiset(docs)
        ensures Upserted(index, sent) == Upserted(index, docs)
      {
        AgreeingOrder(index, docs, sent);
      }
    } else {
      var i, j :| 0 <= i < |docs| && 0 <= j < |docs| && docs[i].0 == docs[j].0 && docs[i] != docs[j];
      assert docs[i].1 != docs[j].1;
      LastOneStays(index, docs, i);
      LastOneStays(index, docs, j);
      assert Upserted(index, WithLast(docs, i)) != Upserted(index, WithLast(docs, j));
    }
  }

  lemma LastOneStays(index: Index, docs: seq<Upsert>, i: nat)
    requires i < |docs|
    ensures var after := Upserted(index, WithLast(docs, i));
      docs[i].0 in after && after[docs[i].0] == docs[i].1
  {
    hide Upserted;
    LastForAppend(docs[..i] + docs[i + 1..], docs[i], docs[i].0);
    LastUpsertStays(index, WithLast(docs, i), docs[i].0);
  }

  /** The index after messages that are sent one after another, each in an order of its own. */
  function AfterBulks(index: Index, bulks: seq<seq<Upsert>>): Index {
    if bulks == [] then index
    else Upserted(AfterBulks(index, bulks[..|bulks| - 1]), bulks[|bulks| - 1])
  }

  function Joined(bulks: seq<seq<Upsert>>): seq<Upsert> {
    if bulks == [] then [] else Joined(bulks[..|bulks| - 1]) + bulks[|bulks| - 1]
  }

  lemma {:induction false} UpsertedConcat(index: Index, a: seq<Upsert>, b: seq<Upsert>)
    ensures Upserted(index, a + b) == Upserted(Upserted(index, a), b)
    decreases |a|
  {
    if a == [] {
      assert a + b == b;
    } else {
      assert (a + b)[1..] == a[1..] + b;
      UpsertedConcat(index[a[0].0 := a[0].1], a[1..], b);
    }
  }

  lemma {:induction false} BulksJoin(index: Index, bulks: seq<seq<Upsert>>, sent: seq<seq<Upsert>>)
    requires |sent| == |bulks|
    requires forall n :: 0 <= n < |bulks| ==> multiset(sent[n]) == multiset(bulks[n]) && Agree(bulks[n])
    ensures AfterBulks(index, sent) == Upserted(index, Joined(bulks))
  {
    if bulks != [] {
      hide Upserted, Agree;
      var n := |bulks| - 1;
      BulksJoin(index, bulks[..n], sent[..n]);
      AgreeingOrder(AfterBulks(index, sent[..n]), bulks[n], sent[n]);
      UpsertedConcat(index, Joined(bulks[..n]), bulks[n]);
    }
  }

  /**
   When no message has two versions of an article, the index shows of every article the last row
   that any message carried, however each bulk is sent.
   */
  lemma IndexConverges(index: Index, bulks: seq<seq<Upsert>>, sent: seq<seq<Upsert>>, id: int)
    requires |sent| == |bulks|
    requires forall n :: 0 <= n < |bulks| ==> multiset(sent[n]) == multiset(bulks[n]) && Agree(bulks[n])
    requires LastFor(Joined(bulks), id).Some?
    ensures id in AfterBulks(index, sent) && AfterBulks(index, sent)[id] == LastFor(Joined(bulks), id).value
  {
    hide Upserted, Agree, AfterBulks;
    BulksJoin(index, bulks, sent);
    LastUpsertStays(index, Joined(bulks), id);
  }
}
