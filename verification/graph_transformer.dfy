/**
  The identifier assigner of the graph transformer.

  A graph arrives as a sequence of statements (subject, predicate, object). A first pass
  folds the statements into two ID tables: every subject and every non-literal object gets
  the next dense node ID, every predicate the next relationship ID, in first-seen order.
  A second pass over the same statements emits one integer-coded fact
  [subjectID, objectID, predicateID] per statement whose object is not a literal.
 */
module GraphTransformer {
  import opened Results

  /**
    An RDF term that can be a subject, a predicate or a non-literal object: an IRI. Blank nodes
    are not terms of the model, because the parser renames them on every parse.
   */
  datatype Term = Iri(iri: string)

  /** The object of a statement: a resource, which gets a node ID, or a literal, which never does. */
  datatype Object = Resource(term: Term) | Literal(lexical: string)

  datatype Statement = Statement(sub: Term, pred: Term, obj: Object)

  /** An integer-coded fact [subjectID, objectID, predicateID]. */
  datatype Fact = Fact(sub: nat, obj: nat, pred: nat)

  /** The transformer's state: the node and relationship tables and their counters. */
  datatype Ids = Ids(nodeId: map<Term, nat>, relId: map<Term, nat>, nodeIdCount: nat, relIdCount: nat)

  /**
    `m` numbers its `count` keys densely: each key has an ID below `count` and no two keys share
    one. `DenseIsOnto` shows that then every ID in 0 .. count-1 is in use.
   */
  ghost predicate Dense(m: map<Term, nat>, count: nat) {
    && |m| == count
    && (forall k | k in m :: m[k] < count)
    && (forall k1, k2 | k1 in m && k2 in m && m[k1] == m[k2] :: k1 == k2)
  }

  /** Both tables are dense for their counters. */
  ghost predicate Valid(st: Ids) {
    Dense(st.nodeId, st.nodeIdCount) && Dense(st.relId, st.relIdCount)
  }

  /** The IDs 0 .. n-1. */
  function IdRange(n: nat): (r: set<nat>)
    ensures forall i: nat :: i in r <==> i < n
    ensures |r| == n
  {
    if n == 0 then {} else IdRange(n - 1) + {n - 1}
  }

  /** An injective table has as many distinct IDs as keys. */
  lemma {:induction false} InjectiveValues(m: map<Term, nat>)
    requires forall k1, k2 | k1 in m && k2 in m && m[k1] == m[k2] :: k1 == k2
    ensures |m.Values| == |m|
    decreases |m|
  {
    if |m| > 0 {
      var k :| k in m;
      var rest := m - {k};
      InjectiveValues(rest);
      forall v | v in m.Values
        ensures v in rest.Values + {m[k]}
      {
        var k' :| k' in m && m[k'] == v;
        if k' != k {
          assert rest[k'] == v;
        }
      }
      assert m.Values == rest.Values + {m[k]};
      assert m[k] !in rest.Values;
      assert |rest| == |m| - 1;
    }
  }

  /** Pigeonhole: a dense table uses every ID below its counter. */
  lemma DenseIsOnto(m: map<Term, nat>, count: nat)
    requires Dense(m, count)
    ensures forall i: nat | i < count :: i in m.Values
  {
    InjectiveValues(m);
    var ids := IdRange(count);
    assert m.Values <= ids;
    SubsetOfSameSize(m.Values, ids);
  }

  /** A subset as large as its superset is the superset. */
  lemma {:induction false} SubsetOfSameSize<T>(a: set<T>, b: set<T>)
    requires a <= b && |a| == |b|
    ensures a == b
  {
    if x :| x in b && x !in a {
      assert a <= b - {x};
      assert |b - {x}| == |b| - 1;
      SubsetSize(a, b - {x});
      assert false;
    }
  }

  /** A subset is no larger than its superset. */
  lemma {:induction false} SubsetSize<T>(a: set<T>, b: set<T>)
    requires a <= b
    ensures |a| <= |b|
    decreases |b|
  {
    if a != {} {
      var x :| x in a;
      SubsetSize(a - {x}, b - {x});
    }
  }

  /** The state of a freshly constructed transformer: empty tables, both counters at zero. */
  function Init(): (st: Ids)
    ensures Valid(st)
    ensures st.nodeId == map[] && st.relId == map[]
  {
    Ids(map[], map[], 0, 0)
  }

  /** Hands out the node counter and advances it; nothing else changes. */
  function NextNodeId(st: Ids): (r: (nat, Ids))
    ensures r.1.nodeIdCount == r.0 + 1 && r.0 == st.nodeIdCount
    ensures r.1.nodeId == st.nodeId && r.1.relId == st.relId && r.1.relIdCount == st.relIdCount
  {
    (st.nodeIdCount, st.(nodeIdCount := st.nodeIdCount + 1))
  }

  /** Hands out the relationship counter and advances it; nothing else changes. */
  function NextRelationshipId(st: Ids): (r: (nat, Ids))
    ensures r.1.relIdCount == r.0 + 1 && r.0 == st.relIdCount
    ensures r.1.relId == st.relId && r.1.nodeId == st.nodeId && r.1.nodeIdCount == st.nodeIdCount
  {
    (st.relIdCount, st.(relIdCount := st.relIdCount + 1))
  }

  /** Under dense tables the IDs handed out are held by no node and by no predicate yet. */
  lemma NextIdsUnused(st: Ids)
    requires Valid(st)
    ensures NextNodeId(st).0 !in st.nodeId.Values
    ensures NextRelationshipId(st).0 !in st.relId.Values
  {
  }

  /** Looks `n` up in the node table and numbers it with the next node ID when it is absent. */
  function AssignNode(st: Ids, n: Term): (r: Ids)
    ensures r.nodeId.Keys == st.nodeId.Keys + {n}
    ensures n in st.nodeId ==> r == st
    ensures n !in st.nodeId ==> r.nodeId[n] == st.nodeIdCount && r.nodeIdCount == st.nodeIdCount + 1
    ensures forall k | k in st.nodeId :: r.nodeId[k] == st.nodeId[k]
    ensures r.relId == st.relId && r.relIdCount == st.relIdCount
  {
    if n in st.nodeId then st
    else
      var (id, next) := NextNodeId(st);
      next.(nodeId := next.nodeId[n := id])
  }

  /** Numbering a node keeps both tables dense. */
  lemma AssignNodeValid(st: Ids, n: Term)
    requires Valid(st)
    ensures Valid(AssignNode(st, n))
  {
  }

  /** Looks `p` up in the relationship table and numbers it with the next relationship ID when it is absent. */
  function AssignRelation(st: Ids, p: Term): (r: Ids)
    ensures r.relId.Keys == st.relId.Keys + {p}
    ensures p in st.relId ==> r == st
    ensures p !in st.relId ==> r.relId[p] == st.relIdCount && r.relIdCount == st.relIdCount + 1
    ensures forall k | k in st.relId :: r.relId[k] == st.relId[k]
    ensures r.nodeId == st.nodeId && r.nodeIdCount == st.nodeIdCount
  {
    if p in st.relId then st
    else
      var (id, next) := NextRelationshipId(st);
      next.(relId := next.relId[p := id])
  }

  /** Numbering a predicate keeps both tables dense. */
  lemma AssignRelationValid(st: Ids, p: Term)
    requires Valid(st)
    ensures Valid(AssignRelation(st, p))
  {
  }

  /** The resources of one statement: its subject, and its object unless that is a literal. */
  function StatementNodes(s: Statement): set<Term> {
    if s.obj.Resource? then {s.sub, s.obj.term} else {s.sub}
  }

  /** Every resource of a statement sequence. */
  function NodesOf(stmts: seq<Statement>): set<Term> {
    if |stmts| == 0 then {} else StatementNodes(stmts[0]) + NodesOf(stmts[1..])
  }

  /** Every predicate of a statement sequence. */
  function PredicatesOf(stmts: seq<Statement>): set<Term> {
    if |stmts| == 0 then {} else {stmts[0].pred} + PredicatesOf(stmts[1..])
  }

  /**
    Numbers the resources and the predicate of one statement: subject first, then the object
    when it is not a literal, then the predicate.
   */
  function ProcessStatement(st: Ids, s: Statement): (r: Ids)
    ensures r.nodeId.Keys == st.nodeId.Keys + StatementNodes(s)
    ensures r.relId.Keys == st.relId.Keys + {s.pred}
    ensures forall k | k in st.nodeId :: r.nodeId[k] == st.nodeId[k]
    ensures forall p | p in st.relId :: r.relId[p] == st.relId[p]
    ensures s.sub !in st.nodeId ==> r.nodeId[s.sub] == st.nodeIdCount
    ensures s.obj.Resource? && s.obj.term !in st.nodeId && s.obj.term != s.sub ==>
              r.nodeId[s.obj.term] == st.nodeIdCount + (if s.sub in st.nodeId then 0 else 1)
    ensures r.nodeIdCount == st.nodeIdCount + (if s.sub in st.nodeId then 0 else 1)
              + (if s.obj.Resource? && s.obj.term !in st.nodeId && s.obj.term != s.sub then 1 else 0)
    ensures s.pred !in st.relId ==> r.relId[s.pred] == st.relIdCount
    ensures r.relIdCount == st.relIdCount + (if s.pred in st.relId then 0 else 1)
    ensures Extends(st, r)
  {
    var withSub := AssignNode(st, s.sub);
    var withObj := if s.obj.Resource? then AssignNode(withSub, s.obj.term) else withSub;
    AssignRelation(withObj, s.pred)
  }

  /** Numbering one statement keeps both tables dense. */
  lemma ProcessStatementValid(st: Ids, s: Statement)
    requires Valid(st)
    ensures Valid(ProcessStatement(st, s))
  {
    var withSub := AssignNode(st, s.sub);
    AssignNodeValid(st, s.sub);
    if s.obj.Resource? {
      AssignNodeValid(withSub, s.obj.term);
    }
    var withObj := if s.obj.Resource? then AssignNode(withSub, s.obj.term) else withSub;
    AssignRelationValid(withObj, s.pred);
  }

  /** One statement consumes one node ID per resource of it not yet numbered: one only when subject and object coincide. */
  lemma ProcessStatementCount(st: Ids, s: Statement)
    ensures ProcessStatement(st, s).nodeIdCount == st.nodeIdCount + |StatementNodes(s) - st.nodeId.Keys|
  {
    NewNodesCount(st.nodeId.Keys, s);
  }

  /** How many resources of a statement are missing from the keys `known`. */
  lemma NewNodesCount(known: set<Term>, s: Statement)
    ensures |StatementNodes(s) - known| ==
              (if s.sub in known then 0 else 1)
              + (if s.obj.Resource? && s.obj.term !in known && s.obj.term != s.sub then 1 else 0)
  {
    var unseen := StatementNodes(s) - known;
    if s.obj.Resource? && s.obj.term != s.sub {
      if s.sub in known && s.obj.term in known {
        assert unseen == {};
      } else if s.sub in known {
        assert unseen == {s.obj.term};
      } else if s.obj.term in known {
        assert unseen == {s.sub};
      } else {
        assert unseen == {s.sub, s.obj.term};
      }
    } else if s.sub in known {
      assert unseen == {};
    } else {
      assert unseen == {s.sub};
    }
  }

  /**
    `later` grew from `earlier`: every existing ID is kept, the counters never go back, and
    every newly numbered key got an ID at or above the earlier counter.
   */
  ghost predicate Extends(earlier: Ids, later: Ids) {
    && earlier.nodeIdCount <= later.nodeIdCount
    && earlier.relIdCount <= later.relIdCount
    && (forall k | k in earlier.nodeId :: k in later.nodeId && later.nodeId[k] == earlier.nodeId[k])
    && (forall k | k in earlier.relId :: k in later.relId && later.relId[k] == earlier.relId[k])
    && (forall k | k in later.nodeId && k !in earlier.nodeId :: earlier.nodeIdCount <= later.nodeId[k])
    && (forall k | k in later.relId && k !in earlier.relId :: earlier.relIdCount <= later.relId[k])
  }

  lemma ExtendsTransitive(a: Ids, b: Ids, c: Ids)
    requires Extends(a, b) && Extends(b, c)
    ensures Extends(a, c)
  {
  }

  /**
    The ID pass: folds the statements, first to last, into the state. Statements already
    numbered leave the state alone; new resources and predicates get IDs from the counters.
   */
  function GenerateIndices(st: Ids, stmts: seq<Statement>): Ids
    decreases |stmts|
  {
    if |stmts| == 0 then st
    else GenerateIndices(ProcessStatement(st, stmts[0]), stmts[1..])
  }

  /**
    The ID pass only extends the state: counters never go back, old keys keep their IDs, and
    new keys get IDs at or above the old counters.
   */
  lemma {:induction false} GenerateIndicesExtends(st: Ids, stmts: seq<Statement>)
    ensures Extends(st, GenerateIndices(st, stmts))
    decreases |stmts|
  {
    if |stmts| > 0 {
      var next := ProcessStatement(st, stmts[0]);
      GenerateIndicesExtends(next, stmts[1..]);
      ExtendsTransitive(st, next, GenerateIndices(next, stmts[1..]));
    }
  }

  /**
    After the ID pass, the node table holds exactly the earlier keys and the resources of the
    statements (never a literal), and the relationship table the earlier keys and the predicates.
   */
  lemma GenerateIndicesKeys(st: Ids, stmts: seq<Statement>)
    ensures GenerateIndices(st, stmts).nodeId.Keys == st.nodeId.Keys + NodesOf(stmts)
    ensures GenerateIndices(st, stmts).relId.Keys == st.relId.Keys + PredicatesOf(stmts)
  {
    GenerateIndicesNodeKeys(st, stmts);
    GenerateIndicesRelationKeys(st, stmts);
  }

  /** The node keys after the ID pass: the earlier keys and every resource of the statements. */
  lemma {:induction false} GenerateIndicesNodeKeys(st: Ids, stmts: seq<Statement>)
    ensures GenerateIndices(st, stmts).nodeId.Keys == st.nodeId.Keys + NodesOf(stmts)
    decreases |stmts|
  {
    if |stmts| > 0 {
      GenerateIndicesNodeKeys(ProcessStatement(st, stmts[0]), stmts[1..]);
    }
  }

  /** The relationship keys after the ID pass: the earlier keys and every predicate of the statements. */
  lemma {:induction false} GenerateIndicesRelationKeys(st: Ids, stmts: seq<Statement>)
    ensures GenerateIndices(st, stmts).relId.Keys == st.relId.Keys + PredicatesOf(stmts)
    decreases |stmts|
  {
    if |stmts| > 0 {
      GenerateIndicesRelationKeys(ProcessStatement(st, stmts[0]), stmts[1..]);
    }
  }

  /** The ID pass keeps both tables dense. */
  lemma {:induction false} GenerateIndicesValid(st: Ids, stmts: seq<Statement>)
    requires Valid(st)
    ensures Valid(GenerateIndices(st, stmts))
    decreases |stmts|
  {
    if |stmts| > 0 {
      ProcessStatementValid(st, stmts[0]);
      GenerateIndicesValid(ProcessStatement(st, stmts[0]), stmts[1..]);
    }
  }

  /** `getShape`: the number of node keys twice, then the number of relationship keys. */
  function GetShape(st: Ids): (r: (nat, nat, nat))
    ensures Valid(st) ==> r == (st.nodeIdCount, st.nodeIdCount, st.relIdCount)
  {
    (|st.nodeId.Keys|, |st.nodeId.Keys|, |st.relId.Keys|)
  }

  /** Whether the fact lookups of a statement succeed: literal statements need none. */
  predicate Resolvable(st: Ids, s: Statement) {
    s.obj.Literal? || (s.sub in st.nodeId && s.obj.term in st.nodeId && s.pred in st.relId)
  }

  /** The statements whose object is not a literal, in their original order. */
  function ResourceStatements(stmts: seq<Statement>): (r: seq<Statement>)
    ensures forall s | s in r :: s in stmts && s.obj.Resource?
    ensures |r| <= |stmts|
  {
    if |stmts| == 0 then []
    else if stmts[0].obj.Literal? then ResourceStatements(stmts[1..])
    else [stmts[0]] + ResourceStatements(stmts[1..])
  }

  /** The integer-coded fact of a resource statement whose lookups succeed. */
  function Encode(st: Ids, s: Statement): Fact
    requires s.obj.Resource? && Resolvable(st, s)
  {
    Fact(st.nodeId[s.sub], st.nodeId[s.obj.term], st.relId[s.pred])
  }

  /** Under dense tables an encoded fact refers only to assigned IDs. */
  lemma EncodeInRange(st: Ids, s: Statement)
    requires Valid(st) && s.obj.Resource? && Resolvable(st, s)
    ensures var f := Encode(st, s);
            f.sub < st.nodeIdCount && f.obj < st.nodeIdCount && f.pred < st.relIdCount
  {
  }

  /**
    The fact pass: one fact per statement whose object is not a literal, in statement order.
    `None` when some lookup raises a `KeyError`.
   */
  function EmitFacts(st: Ids, stmts: seq<Statement>): (r: Option<seq<Fact>>)
    ensures r.Some? <==> forall s | s in stmts :: Resolvable(st, s)
  {
    if |stmts| == 0 then Some([])
    else
      var s := stmts[0];
      var rest := EmitFacts(st, stmts[1..]);
      assert forall t | t in stmts :: t == s || t in stmts[1..];
      if s.obj.Literal? then rest
      else if !Resolvable(st, s) || rest.None? then None
      else Some([Encode(st, s)] + rest.value)
  }

  /**
    The facts come one per non-literal statement, in statement order, each made of the IDs of
    that statement's subject, object and predicate.
   */
  lemma {:induction false} EmitFactsInOrder(st: Ids, stmts: seq<Statement>)
    requires EmitFacts(st, stmts).Some?
    ensures var facts := EmitFacts(st, stmts).value;
            && |facts| == |ResourceStatements(stmts)|
            && forall k | 0 <= k < |facts| :: facts[k] == Encode(st, ResourceStatements(stmts)[k])
    decreases |stmts|
  {
    if |stmts| > 0 {
      var s, rest := stmts[0], stmts[1..];
      assert EmitFacts(st, rest).Some?;
      EmitFactsInOrder(st, rest);
      if s.obj.Literal? {
        assert EmitFacts(st, stmts) == EmitFacts(st, rest);
        assert ResourceStatements(stmts) == ResourceStatements(rest);
      } else {
        var facts, restFacts := EmitFacts(st, stmts).value, EmitFacts(st, rest).value;
        var rs, restRs := ResourceStatements(stmts), ResourceStatements(rest);
        assert facts == [Encode(st, s)] + restFacts;
        assert rs == [s] + restRs;
        forall k | 1 <= k < |facts|
          ensures facts[k] == Encode(st, rs[k])
        {
          assert facts[k] == restFacts[k - 1] && rs[k] == restRs[k - 1];
        }
      }
    }
  }

  /**
    `generateAdjacency`: the ID pass over the statements, then the fact pass over the same
    statements with the final tables.
   */
  function GenerateAdjacency(st: Ids, stmts: seq<Statement>): (r: (Ids, seq<Fact>))
    requires Valid(st)
    ensures r.0 == GenerateIndices(st, stmts) && Valid(r.0)
    ensures EmitFacts(r.0, stmts) == Some(r.1)
    ensures |r.1| == |ResourceStatements(stmts)|
    ensures forall f | f in r.1 :: f.sub < r.0.nodeIdCount && f.obj < r.0.nodeIdCount && f.pred < r.0.relIdCount
    ensures stmts == [] ==> r.0 == st && r.1 == []
  {
    var ids := GenerateIndices(st, stmts);
    GenerateIndicesValid(st, stmts);
    FactsInRange(st, stmts);
    EmitFactsInOrder(ids, stmts);
    (ids, EmitFacts(ids, stmts).value)
  }

  /** Every resource and predicate of the i-th statement is among those of the sequence. */
  lemma {:induction false} StatementCovered(stmts: seq<Statement>, i: nat)
    requires i < |stmts|
    ensures StatementNodes(stmts[i]) <= NodesOf(stmts)
    ensures stmts[i].pred in PredicatesOf(stmts)
    decreases i
  {
    if i > 0 {
      StatementCovered(stmts[1..], i - 1);
      assert stmts[1..][i - 1] == stmts[i];
    }
  }

  /** After the ID pass over some statements, every lookup of the fact pass over them succeeds. */
  lemma IdPassResolvesAll(st: Ids, stmts: seq<Statement>)
    ensures var ids := GenerateIndices(st, stmts);
            forall s | s in stmts :: Resolvable(ids, s)
  {
    var ids := GenerateIndices(st, stmts);
    GenerateIndicesKeys(st, stmts);
    forall s | s in stmts
      ensures Resolvable(ids, s)
    {
      var i :| 0 <= i < |stmts| && stmts[i] == s;
      StatementCovered(stmts, i);
    }
  }

  /** Under dense tables every fact the fact pass emits refers only to assigned IDs. */
  lemma {:induction false} FactsBounded(ids: Ids, stmts: seq<Statement>)
    requires Valid(ids) && EmitFacts(ids, stmts).Some?
    ensures forall f | f in EmitFacts(ids, stmts).value ::
              f.sub < ids.nodeIdCount && f.obj < ids.nodeIdCount && f.pred < ids.relIdCount
    decreases |stmts|
  {
    if |stmts| > 0 {
      var s, rest := stmts[0], stmts[1..];
      assert EmitFacts(ids, rest).Some?;
      FactsBounded(ids, rest);
      if s.obj.Resource? {
        EncodeInRange(ids, s);
        assert EmitFacts(ids, stmts).value == [Encode(ids, s)] + EmitFacts(ids, rest).value;
      }
    }
  }

  /**
    After the ID pass over some statements, the fact pass over the same statements finds
    every key it looks up, and every fact it emits refers only to assigned IDs.
   */
  lemma FactsInRange(st: Ids, stmts: seq<Statement>)
    requires Valid(st)
    ensures var ids := GenerateIndices(st, stmts);
            && EmitFacts(ids, stmts).Some?
            && forall f | f in EmitFacts(ids, stmts).value ::
                 f.sub < ids.nodeIdCount && f.obj < ids.nodeIdCount && f.pred < ids.relIdCount
  {
    IdPassResolvesAll(st, stmts);
    GenerateIndicesValid(st, stmts);
    FactsBounded(GenerateIndices(st, stmts), stmts);
  }

  /** Splitting the statements in two and folding the halves one after the other changes nothing. */
  lemma {:induction false} GenerateIndicesAppend(st: Ids, earlier: seq<Statement>, later: seq<Statement>)
    ensures GenerateIndices(st, earlier + later) == GenerateIndices(GenerateIndices(st, earlier), later)
    decreases |earlier|
  {
    if |earlier| == 0 {
      assert earlier + later == later;
    } else {
      assert (earlier + later)[0] == earlier[0];
      assert (earlier + later)[1..] == earlier[1..] + later;
      GenerateIndicesAppend(ProcessStatement(st, earlier[0]), earlier[1..], later);
    }
  }

  /** Statements whose resources and predicates are all numbered already leave the state unchanged. */
  lemma {:induction false} KnownStatementsAreNoOps(st: Ids, stmts: seq<Statement>)
    requires NodesOf(stmts) <= st.nodeId.Keys && PredicatesOf(stmts) <= st.relId.Keys
    ensures GenerateIndices(st, stmts) == st
    decreases |stmts|
  {
    if |stmts| > 0 {
      assert ProcessStatement(st, stmts[0]) == st;
      KnownStatementsAreNoOps(st, stmts[1..]);
    }
  }

  /** Running the ID pass a second time over the same statements changes neither tables nor counters. */
  lemma GenerateIndicesIdempotent(st: Ids, stmts: seq<Statement>)
    ensures GenerateIndices(GenerateIndices(st, stmts), stmts) == GenerateIndices(st, stmts)
  {
    GenerateIndicesKeys(st, stmts);
    KnownStatementsAreNoOps(GenerateIndices(st, stmts), stmts);
  }

  /**
    First-seen order: a resource that occurs in an earlier part of the stream gets a smaller
    ID than one that first occurs in a later part.
   */
  lemma FirstSeenOrder(st: Ids, earlier: seq<Statement>, later: seq<Statement>, x: Term, y: Term)
    requires Valid(st)
    requires x in NodesOf(earlier)
    requires y !in st.nodeId && y !in NodesOf(earlier) && y in NodesOf(later)
    ensures var r := GenerateIndices(st, earlier + later);
            x in r.nodeId && y in r.nodeId && r.nodeId[x] < r.nodeId[y]
  {
    GenerateIndicesAppend(st, earlier, later);
    var mid := GenerateIndices(st, earlier);
    GenerateIndicesValid(st, earlier);
    GenerateIndicesKeys(st, earlier);
    GenerateIndicesKeys(mid, later);
    GenerateIndicesExtends(mid, later);
    var r := GenerateIndices(mid, later);
    assert x in mid.nodeId && y !in mid.nodeId;
    assert r.nodeId[x] == mid.nodeId[x] < mid.nodeIdCount <= r.nodeId[y];
  }

  /** A statement with a literal object numbers its subject and predicate, and nothing else. */
  lemma LiteralObjectGetsNoId(st: Ids, s: Statement)
    requires s.obj.Literal?
    ensures ProcessStatement(st, s).nodeId.Keys == st.nodeId.Keys + {s.sub}
    ensures EmitFacts(ProcessStatement(st, s), [s]) == Some([])
  {
  }
}
