# Knowledge-stream graph transformer, modelled in Dafny

The graph transformer turns an RDF graph (Turtle, one statement per line) into the inputs of
the knowledge-stream algorithms. It has two parts, and the model covers both.

* **`GraphTransformer`** (`graph_transformer.dfy`). A first pass numbers the resources and
  predicates in first-seen order:
  * every subject, and every object that is not a literal, gets the next dense node ID;
  * every predicate gets the next relationship ID.

  A second pass over the same statements then emits one fact
  `[subjectID, objectID, predicateID]` per statement whose object is not a literal.
  `getShape` reports `(nodes, nodes, relationships)`.
* **`ContractedLineGraph`** (`contracted_line_graph.dfy`). This builds the predicate-by-predicate
  contracted line graph. It starts from the identity matrix, and for every pair of facts `i < j`
  that share a subject or object it adds one to cell `[p_i, p_j]` and one to cell `[p_j, p_i]`.
  From that matrix it fills the symmetric TF-IDF matrix. Each row's count of positive entries
  is the divisor of the score.

Two further modules support these:
* `Matrices` (`matrices.dfy`) holds square matrices of naturals: identity, increment, row and
  matrix sums, and positive-entry counts.
* `Results` (`results.dfy`) holds the `Option` and `Result` types used for the error paths.

How the model represents the program:
* **State.** The transformer's mutable object is an immutable `Ids` value (both tables and
  both counters). Each operation is a pure function from one `Ids` to the next.
* **Tables stay dense.** `Valid` says each table numbers its keys injectively below its
  counter, with as many keys as the counter. By pigeonhole (`DenseIsOnto`) each table is then a
  bijection onto `0 .. count-1`. Every pass preserves it.
* **Errors.**
  * A failed dictionary lookup in the fact pass (`KeyError`) is `None`.
  * An out-of-range matrix index in `generateClg` (`IndexError`) is
    `Failure(PredicateOutOfRange(i, j))`.
  * A division by a zero row count in the TF-IDF scoring (`ZeroDivisionError`) is
    `Failure(ZeroDivision(row))`.
* **The CLG reference.** The contents of the contracted line graph are stated against an
  independent count. `PairsFrom` counts the sharing index pairs in scan order, and `ClgEntry`
  gives each cell as the identity plus both orientations of that count. The loops of
  `GenerateClg` are proved to compute exactly that matrix.

## Model

| member | source | states |
|---|---|---|
| GraphTransformer.Init | transformer/GraphTransformer.py:12-16 | a new transformer has empty tables and zero counters, which is a dense state |
| GraphTransformer.NextNodeId | transformer/GraphTransformer.py:83-86 | hands out the current node counter and raises it by one; the tables and the relationship counter are untouched |
| GraphTransformer.NextRelationshipId | transformer/GraphTransformer.py:88-91 | hands out the current relationship counter and raises it by one; the tables and the node counter are untouched |
| GraphTransformer.NextIdsUnused | transformer/GraphTransformer.py:83-91 | under dense tables the ID handed out is held by no key of its table yet, so a new key never shares an ID |
| GraphTransformer.DenseIsOnto | transformer/GraphTransformer.py:83-91 | in a dense table every ID from 0 to the counter minus one belongs to some key (pigeonhole over the injective numbering) |
| GraphTransformer.AssignNode | transformer/GraphTransformer.py:65-68 | a known resource leaves the state unchanged; an unknown one is added with the old node counter as its ID and the counter grows by one; old IDs and the relationship table are untouched |
| GraphTransformer.AssignNodeValid | transformer/GraphTransformer.py:65-68 | numbering a resource keeps both tables dense |
| GraphTransformer.AssignRelation | transformer/GraphTransformer.py:78-81 | a known predicate leaves the state unchanged; an unknown one gets the old relationship counter and the counter grows by one; the node table is untouched |
| GraphTransformer.AssignRelationValid | transformer/GraphTransformer.py:78-81 | numbering a predicate keeps both tables dense |
| GraphTransformer.ProcessStatement | transformer/GraphTransformer.py:63-81 | one statement adds exactly its subject, its non-literal object and its predicate as keys; a new subject is numbered before a new object; the counters grow by the number of new keys; earlier IDs are kept |
| GraphTransformer.ProcessStatementValid | transformer/GraphTransformer.py:63-81 | one statement keeps both tables dense |
| GraphTransformer.ProcessStatementCount | transformer/GraphTransformer.py:65-75 | the node counter grows by the number of the statement's resources that were not yet keys, so a statement whose subject and object coincide consumes one ID |
| GraphTransformer.GenerateIndices | transformer/GraphTransformer.py:62-81 | the ID pass, `_generateIndices` applied to the statements in order (line after line, GraphTransformer.py:31-32); it has no contract of its own, and its properties are proved in GenerateIndicesExtends, GenerateIndicesNodeKeys, GenerateIndicesRelationKeys and GenerateIndicesValid |
| GraphTransformer.GenerateIndicesExtends | transformer/GraphTransformer.py:62-81 | the ID pass only extends the state: counters never shrink, old keys keep their IDs, new keys get IDs at or above the old counters |
| GraphTransformer.GenerateIndicesNodeKeys | transformer/GraphTransformer.py:62-75 | after the ID pass the node keys are the old keys plus every subject and every non-literal object |
| GraphTransformer.GenerateIndicesRelationKeys | transformer/GraphTransformer.py:77-81 | after the ID pass the relationship keys are the old keys plus every predicate |
| GraphTransformer.GenerateIndicesValid | transformer/GraphTransformer.py:62-91 | the ID pass keeps both tables dense, so the IDs are exactly 0 .. count-1 |
| GraphTransformer.GenerateIndicesAppend | transformer/GraphTransformer.py:31-32 | running the ID pass line after line over a split stream equals running it over the whole stream |
| GraphTransformer.GenerateIndicesIdempotent | transformer/GraphTransformer.py:62-81 | a second ID pass over the same statements changes nothing |
| GraphTransformer.FirstSeenOrder | transformer/GraphTransformer.py:62-91 | a resource that occurs in an earlier part of the stream gets a smaller ID than a new resource that first occurs in a later part |
| GraphTransformer.LiteralObjectGetsNoId | transformer/GraphTransformer.py:70-75 | a statement with a literal object numbers only its subject (and predicate) and emits no fact |
| GraphTransformer.GetShape | transformer/GraphTransformer.py:57-60 | under dense tables the shape is (node count, node count, relationship count) |
| GraphTransformer.Encode | transformer/GraphTransformer.py:48 | the list `[nodeId[sub], nodeId[obj], relId[pred]]` of one resolvable statement; no contract of its own, and EncodeInRange and EmitFactsInOrder state what it yields |
| GraphTransformer.EncodeInRange | transformer/GraphTransformer.py:48 | under dense tables an encoded fact refers only to IDs below the node and relationship counters |
| GraphTransformer.EmitFacts | transformer/GraphTransformer.py:45-48 | the fact pass succeeds exactly when every statement's lookups succeed: a literal-object statement needs none, any other needs its subject, object and predicate in the tables |
| GraphTransformer.EmitFactsInOrder | transformer/GraphTransformer.py:45-48 | the emitted facts are one per non-literal statement, in statement order, each the IDs of that statement's subject, object and predicate |
| GraphTransformer.FactsInRange | transformer/GraphTransformer.py:29-48 | after the ID pass over the statements the fact pass over them cannot raise KeyError, and every fact refers only to assigned node and relationship IDs |
| GraphTransformer.GenerateAdjacency | transformer/GraphTransformer.py:19-55 | both passes over the same statements: dense final tables, no lookup failure, one fact per non-literal statement, every fact inside the shape |
| ContractedLineGraph.ContainSameResource | transformer/ContractedLineGraph.py:53-55 | true exactly when the two facts' sets {subject, object} intersect |
| ContractedLineGraph.ContainSameResourceSymmetric | transformer/ContractedLineGraph.py:53-55 | sharing a resource is symmetric in the two facts |
| ContractedLineGraph.GenerateClg | transformer/ContractedLineGraph.py:11-24 | succeeds exactly when every sharing pair has both predicates below p; then every cell [a, b] is the identity plus the sharing pairs with predicates (a, b) and (b, a), and the matrix sums to p plus twice the sharing pairs; on failure the error names the first sharing pair i < j in scan order with an out-of-range predicate |
| ContractedLineGraph.ScanRow | transformer/ContractedLineGraph.py:19-24 | the inner loop of one row accounts for exactly the pairs (i, i+1) .. (i, n-1), or stops at the first sharing pair of row i whose predicate lies outside the matrix |
| ContractedLineGraph.BumpBoth | transformer/ContractedLineGraph.py:23-24 | the two increments `clg[p1, p2] += 1` and `clg[p2, p1] += 1`: the matrix keeps its shape and its sum grows by exactly two, also when p1 == p2 |
| ContractedLineGraph.ClgSymmetric | transformer/ContractedLineGraph.py:23-24 | the contracted line graph is symmetric |
| ContractedLineGraph.ClgDiagonal | transformer/ContractedLineGraph.py:17-24 | a diagonal cell holds one plus twice the sharing pairs whose predicates are both that one |
| ContractedLineGraph.ClgOfAtMostOneFact | transformer/ContractedLineGraph.py:17-18 | with zero or one fact the outer loop does not run and the result is the identity |
| ContractedLineGraph.CountCoOccurrences | transformer/ContractedLineGraph.py:46-51 | counts the positive entries of row ri, which is the size of the set of its positive columns |
| ContractedLineGraph.ClgRowCountBounds | transformer/ContractedLineGraph.py:43-51 | every row of a contracted line graph has between 1 and p positive entries |
| ContractedLineGraph.RealIdentity | transformer/ContractedLineGraph.py:27 | `np.eye(p, p)` as reals: p rows of p entries, one on the diagonal and zero elsewhere |
| ContractedLineGraph.PairScore | transformer/ContractedLineGraph.py:37-44 | `_calculateTfIdf(ri, rj)` with the logarithms abstracted into `score`, which sees cell [ri, rj], p and the positive count of row ri; no contract of its own, and GenerateTfIdf with TfIdfEntry states where each score lands |
| ContractedLineGraph.GenerateTfIdf | transformer/ContractedLineGraph.py:26-44 | fails exactly when a row that is scored has no positive entry, and then names the first such row; otherwise the result is square, symmetric, one on the diagonal, and holds the score of (min, max) everywhere else |
| ContractedLineGraph.ClgHasNoEmptyScoredRow | transformer/ContractedLineGraph.py:43 | scoring a contracted line graph never divides by zero |
| ContractedLineGraph.AdjacencyFitsClg | transformer/ContractedLineGraph.py:5-9 | the facts of the adjacency, with the relationship count of the shape as the number of predicates, always fit the matrix, so the contracted line graph cannot fail on them |
| ContractedLineGraph.SharedResourceExample | transformer/ContractedLineGraph.py:17-24 | facts (0, 1, p) and (1, 2, p) share resource 1, so the diagonal cell of p is 1 + 2 = 3 |
| Matrices.Identity | transformer/ContractedLineGraph.py:17 | `np.eye(p, p)`: p rows of p entries, one exactly on the diagonal, summing to p |
| Matrices.Increment | transformer/ContractedLineGraph.py:23-24 | adds one to exactly cell [a, b], keeping the shape, so the sum grows by one |

## Left out

- File reading and Turtle parsing (`_getGraphIterator`, GraphTransformer.py:93-102) are not modelled. A graph is the sequence of its statements, each line's statements in a row. rdflib returns each line's statements as a set, so repeated identical statements within one line are not duplicated in the model.
- `_saveIDs` (GraphTransformer.py:104-114) writes files; it is left out as I/O.
- The progress `print` calls and `np.asarray` are left out; the adjacency is the list of facts itself.
- The logarithms of `_calculateTfIdf` (ContractedLineGraph.py:42-44) are floating-point. The score is a parameter of `GenerateTfIdf` that sees the cell value, the number of predicates and the row's count of positive entries. Only the division by a zero count is modelled.
- `saveTfIdf` is an empty stub in the source and has no model.
- Matrix cells are numpy floats in the source and naturals in the model. This is exact for counts below 2^53.
- The source keeps the matrices as object fields. Calling `generateTfIdf` before `generateClg` raises `AttributeError` once there are two or more predicates (with fewer, the inner loop of ContractedLineGraph.py:28-29 never reads the matrix). The model passes the contracted line graph to `GenerateTfIdf`, so that order cannot be expressed.
- A sharing pair with a predicate at or above `numberOfPredicates` makes numpy raise `IndexError` (ContractedLineGraph.py:23). `GenerateClg` models that error, reporting the first such pair in scan order.
- Blank nodes are not modelled: `Term` holds IRIs only. The fact pass parses the file again (GraphTransformer.py:44, 95-98), and the Turtle parser gives every `_:label` a new identity on each parse. So in the program a non-literal statement with a blank subject or object makes the lookup at GraphTransformer.py:48 raise `KeyError`, and a label that recurs on two lines gets two node IDs. The guarantees of `FactsInRange` and `GenerateAdjacency` hold for IRI-only graphs.
- After an `IndexError` the source leaves a partly filled `self.clg`; the model returns only the error.
- Fact IDs are naturals, so numpy's negative indexing cannot arise.
- ContractedLineGraph.GenerateTfIdf: states the cells and the failure condition, but not which cells were already written when the division fails, because the model returns no partial matrix.
