/**
 * The keyword retriever of the retrieval-augmented generation lesson: every
 * document of a fixed list is scored by how many whitespace-separated
 * tokens of the lower-cased query occur in its lower-cased content, the
 * documents with a positive score are ranked by score (a stable sort, so
 * ties keep document order), and the first `top_k` are returned; the
 * contents of the returned documents are joined with a blank line.
 */
module RagRetriever {
  import opened Common

  // ---------------------------------------------------------------------------
  // Documents
  // ---------------------------------------------------------------------------

  /** A document: its text and the `source` entry of its metadata. */
  datatype Document = Document(content: string, source: string)

  /** `DOCUMENTS`, the fixed knowledge base. */
  const Documents: seq<Document> := [
    Document("LangChain 是一个用于开发由语言模型驱动的应用程序的框架。它提供了模块化的组件，使开发者能够轻松构建复杂的 AI 应用。",
             "langchain_intro.txt"),
    Document("RAG（检索增强生成）是一种结合检索和生成的技术。它首先从知识库中检索相关文档，然后将这些文档作为上下文提供给语言模型。",
             "rag_intro.txt"),
    Document("向量数据库用于存储和检索向量嵌入。常见的向量数据库包括 Pinecone、Milvus、Chroma 等。",
             "vector_db.txt"),
    Document("Prompt 工程是设计和优化提示词的过程，好的提示词可以显著提高模型输出的质量。",
             "prompt_engineering.txt")
  ]

  /** The knowledge base holds no document twice (their sources differ). */
  lemma DocumentsDistinct()
    ensures Distinct(Documents)
  {
    assert forall i :: 0 <= i < |Documents| ==> Documents[i].source == ["langchain_intro.txt", "rag_intro.txt", "vector_db.txt", "prompt_engineering.txt"][i];
  }

  // ---------------------------------------------------------------------------
  // str.lower and str.split
  // ---------------------------------------------------------------------------

  /** `str.lower` restricted to ASCII: `A`-`Z` become `a`-`z`, every other character is kept. */
  function LowerChar(c: char): (d: char)
    ensures 'A' <= c <= 'Z' ==> 'a' <= d <= 'z' && d as int - c as int == 32
    ensures !('A' <= c <= 'Z') ==> d == c
  {
    if 'A' <= c <= 'Z' then (c as int + 32) as char else c
  }

  function Lower(s: string): (t: string)
    ensures |t| == |s| && forall i :: 0 <= i < |s| ==> t[i] == LowerChar(s[i])
    ensures forall i :: 0 <= i < |t| ==> !('A' <= t[i] <= 'Z')
  {
    seq(|s|, i requires 0 <= i < |s| => LowerChar(s[i]))
  }

  /** The characters for which `str.isspace` holds, the separators of `str.split()` without arguments. */
  predicate IsSpace(c: char)
  {
    || c == ' ' || c == '\t' || c == '\n' || c == '\r' || c == '\U{000B}' || c == '\U{000C}'
    || '\U{001C}' <= c <= '\U{001F}' || c == '\U{0085}' || c == '\U{00A0}' || c == '\U{1680}'
    || '\U{2000}' <= c <= '\U{200A}' || c == '\U{2028}' || c == '\U{2029}' || c == '\U{202F}'
    || c == '\U{205F}' || c == '\U{3000}'
  }

  ghost predicate NoSpace(w: string)
  {
    forall i :: 0 <= i < |w| ==> !IsSpace(w[i])
  }

  /** A token of `str.split()`: non-empty and free of whitespace. */
  ghost predicate IsToken(w: string)
  {
    w != [] && NoSpace(w)
  }

  /** The split scan: `word` is the token read so far; whitespace ends it, and runs of whitespace yield nothing. */
  function SplitFrom(s: string, word: string): (ws: seq<string>)
    ensures NoSpace(word) ==> forall i :: 0 <= i < |ws| ==> IsToken(ws[i])
    decreases |s|
  {
    if s == [] then (if word == [] then [] else [word])
    else if IsSpace(s[0]) then (if word == [] then [] else [word]) + SplitFrom(s[1..], [])
    else SplitFrom(s[1..], word + [s[0]])
  }

  /** `str.split()`: the maximal runs of non-whitespace characters, in order. */
  function Split(s: string): (ws: seq<string>)
    ensures forall i :: 0 <= i < |ws| ==> IsToken(ws[i])
  {
    SplitFrom(s, [])
  }

  lemma {:induction false} SplitFromToken(t: string, word: string)
    requires NoSpace(t)
    ensures SplitFrom(t, word) == if word + t == [] then [] else [word + t]
    decreases |t|
  {
    if t != [] {
      assert NoSpace(t[1..]) by {
        forall i | 0 <= i < |t| - 1 ensures !IsSpace(t[1..][i]) { assert t[1..][i] == t[i + 1]; }
      }
      assert !IsSpace(t[0]);
      SplitFromToken(t[1..], word + [t[0]]);
      assert (word + [t[0]]) + t[1..] == word + t;
    } else {
      assert word + t == word;
    }
  }

  /** A whitespace-free word splits into itself alone. */
  lemma SplitToken(w: string)
    requires IsToken(w)
    ensures Split(w) == [w]
  {
    SplitFromToken(w, []);
    assert [] + w == w;
  }

  lemma {:induction false} SplitFromAtSpace(a: string, c: char, b: string, word: string)
    requires IsSpace(c)
    ensures SplitFrom(a + [c] + b, word) == SplitFrom(a, word) + Split(b)
    decreases |a|
  {
    var s := a + [c] + b;
    var front: seq<string> := if word == [] then [] else [word];
    if a == [] {
      assert s == [c] + b && s[0] == c && s[1..] == b;
      assert SplitFrom(s, word) == front + SplitFrom(b, []);
    } else {
      assert s[0] == a[0] && s[1..] == a[1..] + [c] + b;
      if IsSpace(a[0]) {
        SplitFromAtSpace(a[1..], c, b, []);
        assert SplitFrom(s, word) == front + SplitFrom(s[1..], []);
        assert SplitFrom(a, word) == front + SplitFrom(a[1..], []);
      } else {
        SplitFromAtSpace(a[1..], c, b, word + [a[0]]);
        assert SplitFrom(s, word) == SplitFrom(s[1..], word + [a[0]]);
        assert SplitFrom(a, word) == SplitFrom(a[1..], word + [a[0]]);
      }
    }
  }

  /**
   * Any whitespace character is a split point: together with `SplitToken` and the
   * empty string giving no tokens, this determines `str.split()` on every string.
   */
  lemma SplitAtSpace(a: string, c: char, b: string)
    requires IsSpace(c)
    ensures Split(a + [c] + b) == Split(a) + Split(b)
  {
    SplitFromAtSpace(a, c, b, []);
  }

  function Concat(ws: seq<string>): string
  {
    if ws == [] then [] else ws[0] + Concat(ws[1..])
  }

  /** The non-whitespace characters of `s`, in order. */
  function NonSpace(s: string): string
  {
    if s == [] then [] else (if IsSpace(s[0]) then [] else [s[0]]) + NonSpace(s[1..])
  }

  lemma {:induction false} ConcatAppend(a: seq<string>, b: seq<string>)
    ensures Concat(a + b) == Concat(a) + Concat(b)
  {
    if a == [] {
      assert a + b == b;
    } else {
      assert (a + b)[1..] == a[1..] + b;
      ConcatAppend(a[1..], b);
    }
  }

  lemma {:induction false} SplitFromLosesOnlySpace(s: string, word: string)
    ensures Concat(SplitFrom(s, word)) == word + NonSpace(s)
    decreases |s|
  {
    if s == [] {
      if word != [] { assert Concat([word]) == word + Concat([]); }
    } else if IsSpace(s[0]) {
      var front: seq<string> := if word == [] then [] else [word];
      ConcatAppend(front, SplitFrom(s[1..], []));
      SplitFromLosesOnlySpace(s[1..], []);
      if word != [] { assert Concat([word]) == word + Concat([]); }
    } else {
      SplitFromLosesOnlySpace(s[1..], word + [s[0]]);
    }
  }

  /** Splitting loses exactly the whitespace: the tokens, concatenated, are the non-whitespace characters. */
  lemma SplitKeepsNonSpace(s: string)
    ensures Concat(Split(s)) == NonSpace(s)
  {
    SplitFromLosesOnlySpace(s, []);
  }

  // ---------------------------------------------------------------------------
  // Scoring
  // ---------------------------------------------------------------------------

  /** `w in t` on strings: `w` is a prefix of some suffix of `t`. */
  predicate Occurs(w: string, t: string)
    decreases |t|
  {
    w <= t || (t != [] && Occurs(w, t[1..]))
  }

  /** `Occurs` is the substring test: `w` starts at some position of `t`. */
  lemma {:induction false} OccursAtSomePosition(w: string, t: string)
    ensures Occurs(w, t) <==> exists i :: 0 <= i <= |t| && w <= t[i..]
    decreases |t|
  {
    assert t[0..] == t;
    if t != [] {
      OccursAtSomePosition(w, t[1..]);
      if Occurs(w, t[1..]) {
        var i :| 0 <= i <= |t[1..]| && w <= t[1..][i..];
        assert t[1..][i..] == t[i + 1..];
      }
      if exists i :: 0 <= i <= |t| && w <= t[i..] {
        var i :| 0 <= i <= |t| && w <= t[i..];
        if i > 0 {
          assert t[1..][i - 1..] == t[i..];
        }
      }
    }
  }

  /** `sum(1 for word in words if word in text)`. */
  function CountOccurring(words: seq<string>, text: string): (n: nat)
    ensures n <= |words|
  {
    if words == [] then 0
    else (if Occurs(words[0], text) then 1 else 0) + CountOccurring(words[1..], text)
  }

  /** The count is positive exactly when some token occurs. */
  lemma {:induction false} CountPositiveIffSomeOccurs(words: seq<string>, text: string)
    ensures CountOccurring(words, text) > 0 <==> exists i :: 0 <= i < |words| && Occurs(words[i], text)
  {
    if words != [] {
      CountPositiveIffSomeOccurs(words[1..], text);
      if exists i :: 0 <= i < |words[1..]| && Occurs(words[1..][i], text) {
        var i :| 0 <= i < |words[1..]| && Occurs(words[1..][i], text);
        assert words[i + 1] == words[1..][i];
      }
      if exists i :: 0 <= i < |words| && Occurs(words[i], text) {
        var i :| 0 <= i < |words| && Occurs(words[i], text);
        if i > 0 { assert words[1..][i - 1] == words[i]; }
      }
    }
  }

  /** Tokens are counted with multiplicity: the count of a concatenation is the sum of the counts. */
  lemma {:induction false} CountAppend(a: seq<string>, b: seq<string>, text: string)
    ensures CountOccurring(a + b, text) == CountOccurring(a, text) + CountOccurring(b, text)
  {
    if a == [] {
      assert a + b == b;
    } else {
      assert (a + b)[1..] == a[1..] + b;
      CountAppend(a[1..], b, text);
    }
  }

  /** The score of a document's content for a query. */
  function Score(query: string, content: string): (n: nat)
    ensures n <= |Split(Lower(query))|
  {
    CountOccurring(Split(Lower(query)), Lower(content))
  }

  // ---------------------------------------------------------------------------
  // Scored results and the sort
  // ---------------------------------------------------------------------------

  /** An entry `(score, doc)` of `results`. */
  datatype Hit = Hit(score: nat, doc: Document)

  /** Each hit of `hs` carries its document's score, and that score is positive. */
  ghost predicate ScoredFor(hs: seq<Hit>, query: string)
  {
    forall h :: h in hs ==> h.score == Score(query, h.doc.content) && h.score > 0
  }

  /** `results` after the scoring loop: one hit per positively scored document, in document order. */
  function Scored(docs: seq<Document>, query: string): seq<Hit>
  {
    if docs == [] then []
    else
      var s := Score(query, docs[0].content);
      (if s > 0 then [Hit(s, docs[0])] else []) + Scored(docs[1..], query)
  }

  /** Each result carries its document's score, that score is positive, and its document is from `docs`. */
  lemma {:induction false} ScoredMembers(docs: seq<Document>, query: string)
    ensures ScoredFor(Scored(docs, query), query)
    ensures forall h :: h in Scored(docs, query) ==> h.doc in docs
  {
    if docs != [] {
      ScoredMembers(docs[1..], query);
      assert docs == [docs[0]] + docs[1..];
    }
  }

  lemma {:induction false} ScoredAppend(a: seq<Document>, b: seq<Document>, query: string)
    ensures Scored(a + b, query) == Scored(a, query) + Scored(b, query)
  {
    if a == [] {
      assert a + b == b;
    } else {
      assert (a + b)[1..] == a[1..] + b;
      ScoredAppend(a[1..], b, query);
    }
  }

  /** The documents with a positive score, in document order. */
  function Positive(docs: seq<Document>, query: string): seq<Document>
  {
    if docs == [] then []
    else (if Score(query, docs[0].content) > 0 then [docs[0]] else []) + Positive(docs[1..], query)
  }

  /** `Positive` holds exactly the documents with a positive score. */
  lemma {:induction false} PositiveMembers(docs: seq<Document>, query: string)
    ensures forall d :: d in Positive(docs, query) <==> d in docs && Score(query, d.content) > 0
  {
    if docs != [] {
      PositiveMembers(docs[1..], query);
      assert docs == [docs[0]] + docs[1..];
    }
  }

  /** The documents of `docs` whose score is `v`, in document order. */
  function DocsScoring(docs: seq<Document>, query: string, v: int): seq<Document>
  {
    if docs == [] then []
    else (if Score(query, docs[0].content) == v then [docs[0]] else []) + DocsScoring(docs[1..], query, v)
  }

  /** The hits of `hs` whose score is `v`, in order. */
  function WithScore(hs: seq<Hit>, v: int): seq<Hit>
  {
    if hs == [] then []
    else (if hs[0].score == v then [hs[0]] else []) + WithScore(hs[1..], v)
  }

  /** `[doc for _, doc in hits]`. */
  function DocsOf(hs: seq<Hit>): (ds: seq<Document>)
    ensures |ds| == |hs| && forall i :: 0 <= i < |hs| ==> ds[i] == hs[i].doc
  {
    seq(|hs|, i requires 0 <= i < |hs| => hs[i].doc)
  }

  ghost predicate SortedDesc(hs: seq<Hit>)
  {
    forall i, j :: 0 <= i < j < |hs| ==> hs[i].score >= hs[j].score
  }

  /** Insert `h` before the first entry whose score is not above its own. */
  function Insert(h: Hit, hs: seq<Hit>): (r: seq<Hit>)
    ensures |r| == |hs| + 1
  {
    if hs == [] || h.score >= hs[0].score then [h] + hs
    else [hs[0]] + Insert(h, hs[1..])
  }

  /** `results.sort(key=score, reverse=True)`: Python's sort, which is stable, by decreasing score. */
  function SortByScore(hs: seq<Hit>): (r: seq<Hit>)
    ensures |r| == |hs|
  {
    if hs == [] then [] else Insert(hs[0], SortByScore(hs[1..]))
  }

  lemma {:induction false} InsertPermutes(h: Hit, hs: seq<Hit>)
    ensures multiset(Insert(h, hs)) == multiset(hs) + multiset{h}
  {
    if !(hs == [] || h.score >= hs[0].score) {
      InsertPermutes(h, hs[1..]);
      assert hs == [hs[0]] + hs[1..];
    }
  }

  /** The sorted results are a permutation of the results. */
  lemma {:induction false} SortIsPermutation(hs: seq<Hit>)
    ensures multiset(SortByScore(hs)) == multiset(hs)
  {
    if hs != [] {
      SortIsPermutation(hs[1..]);
      InsertPermutes(hs[0], SortByScore(hs[1..]));
      assert hs == [hs[0]] + hs[1..];
    }
  }

  /** Inserting into entries scoring at most `b` an entry scoring at most `b` keeps every score at most `b`. */
  lemma {:induction false} InsertBounded(h: Hit, hs: seq<Hit>, b: int)
    requires h.score <= b && forall i :: 0 <= i < |hs| ==> hs[i].score <= b
    ensures forall i :: 0 <= i < |Insert(h, hs)| ==> Insert(h, hs)[i].score <= b
  {
    if !(hs == [] || h.score >= hs[0].score) {
      InsertBounded(h, hs[1..], b);
      assert Insert(h, hs) == [hs[0]] + Insert(h, hs[1..]);
    }
  }

  lemma {:induction false} InsertKeepsSorted(h: Hit, hs: seq<Hit>)
    requires SortedDesc(hs)
    ensures SortedDesc(Insert(h, hs))
  {
    if !(hs == [] || h.score >= hs[0].score) {
      var rest := Insert(h, hs[1..]);
      InsertKeepsSorted(h, hs[1..]);
      InsertBounded(h, hs[1..], hs[0].score);
      var r := [hs[0]] + rest;
      assert Insert(h, hs) == r;
      forall i, j | 0 <= i < j < |r| ensures r[i].score >= r[j].score {
        assert r[j] == rest[j - 1];
        if i > 0 { assert r[i] == rest[i - 1]; }
      }
    }
  }

  /** The sorted results are in non-increasing score order. */
  lemma {:induction false} SortIsSorted(hs: seq<Hit>)
    ensures SortedDesc(SortByScore(hs))
  {
    if hs != [] {
      SortIsSorted(hs[1..]);
      InsertKeepsSorted(hs[0], SortByScore(hs[1..]));
    }
  }

  lemma {:induction false} WithScoreInsert(h: Hit, hs: seq<Hit>, v: int)
    requires SortedDesc(hs)
    ensures WithScore(Insert(h, hs), v) == (if h.score == v then [h] else []) + WithScore(hs, v)
  {
    var hd := if h.score == v then [h] else [];
    if !(hs == [] || h.score >= hs[0].score) {
      var r := Insert(h, hs);
      var rest := Insert(h, hs[1..]);
      assert r == [hs[0]] + rest;
      assert r[0] == hs[0] && r[1..] == rest;
      var front := if hs[0].score == v then [hs[0]] else [];
      assert WithScore(r, v) == front + WithScore(rest, v);
      assert WithScore(hs, v) == front + WithScore(hs[1..], v);
      WithScoreInsert(h, hs[1..], v);
    } else {
      var r := [h] + hs;
      assert r[0] == h && r[1..] == hs;
      assert WithScore(r, v) == hd + WithScore(hs, v);
    }
  }

  /** The sort is stable: for every score, the entries with that score keep their relative order. */
  lemma {:induction false} SortIsStable(hs: seq<Hit>, v: int)
    ensures WithScore(SortByScore(hs), v) == WithScore(hs, v)
  {
    if hs != [] {
      SortIsStable(hs[1..], v);
      SortIsSorted(hs[1..]);
      WithScoreInsert(hs[0], SortByScore(hs[1..]), v);
    }
  }

  lemma {:induction false} DocsOfInsert(h: Hit, hs: seq<Hit>)
    ensures multiset(DocsOf(Insert(h, hs))) == multiset(DocsOf(hs)) + multiset{h.doc}
  {
    if hs == [] || h.score >= hs[0].score {
      DocsOfAppend([h], hs);
    } else {
      var rest := Insert(h, hs[1..]);
      assert Insert(h, hs) == [hs[0]] + rest;
      DocsOfInsert(h, hs[1..]);
      DocsOfAppend([hs[0]], rest);
      assert hs == [hs[0]] + hs[1..];
      DocsOfAppend([hs[0]], hs[1..]);
    }
  }

  /** Sorting permutes the documents of the results. */
  lemma {:induction false} DocsOfSort(hs: seq<Hit>)
    ensures multiset(DocsOf(SortByScore(hs))) == multiset(DocsOf(hs))
  {
    if hs != [] {
      DocsOfSort(hs[1..]);
      DocsOfInsert(hs[0], SortByScore(hs[1..]));
      assert DocsOf(hs) == [hs[0].doc] + DocsOf(hs[1..]);
    }
  }

  // ---------------------------------------------------------------------------
  // Top-k and the retriever
  // ---------------------------------------------------------------------------

  /** The length of `s[:k]` under Python's slicing: a negative `k` counts from the end. */
  function SliceEnd(len: nat, k: int): (n: nat)
    ensures n <= len
    ensures k >= 0 ==> n == if k < len then k else len
    ensures k < 0 ==> n == if len + k > 0 then len + k else 0
  {
    if k >= 0 then (if k < len then k else len)
    else if len + k > 0 then len + k else 0
  }

  /** `results[:top_k]`. */
  function Take<T>(s: seq<T>, k: int): seq<T>
  {
    s[..SliceEnd(|s|, k)]
  }

  /** `simple_retriever` over a document list: score, keep the positive, sort stably by decreasing score, take `top_k`. */
  function Retrieve(docs: seq<Document>, query: string, topK: int): seq<Document>
  {
    DocsOf(Take(SortByScore(Scored(docs, query)), topK))
  }

  /**
   * The body of `simple_retriever` over a document list: the scoring loop
   * that appends `(score, doc)` for each positive score, the sort, and
   * the slice.
   */
  method RankDocuments(documents: seq<Document>, query: string, topK: int) returns (docs: seq<Document>)
    ensures docs == Retrieve(documents, query, topK)
  {
    var results: seq<Hit> := [];
    var queryLower := Lower(query);
    for i := 0 to |documents|
      invariant results == Scored(documents[..i], query)
    {
      var doc := documents[i];
      var score := CountOccurring(Split(queryLower), Lower(doc.content));
      ScoredAppend(documents[..i], [doc], query);
      assert documents[..i + 1] == documents[..i] + [doc];
      if score > 0 {
        results := results + [Hit(score, doc)];
      }
    }
    assert documents[..|documents|] == documents;
    results := SortByScore(results);
    docs := DocsOf(Take(results, topK));
  }

  /** `simple_retriever(query, top_k)` over `DOCUMENTS`. */
  method SimpleRetriever(query: string, topK: int := 2) returns (docs: seq<Document>)
    ensures docs == Retrieve(Documents, query, topK)
    ensures Distinct(docs)
    ensures forall d :: d in docs ==> d in Documents && Score(query, d.content) > 0
  {
    docs := RankDocuments(Documents, query, topK);
    DocumentsDistinct();
    RetrievedDistinct(Documents, query, topK);
    RetrievedArePositive(Documents, query, topK);
  }

  // ---------------------------------------------------------------------------
  // Properties of the retriever
  // ---------------------------------------------------------------------------

  lemma {:induction false} DocsOfScored(docs: seq<Document>, query: string)
    ensures DocsOf(Scored(docs, query)) == Positive(docs, query)
  {
    if docs != [] {
      DocsOfScored(docs[1..], query);
      var s := Score(query, docs[0].content);
      var front: seq<Hit> := if s > 0 then [Hit(s, docs[0])] else [];
      assert DocsOf(front + Scored(docs[1..], query)) == DocsOf(front) + DocsOf(Scored(docs[1..], query));
    }
  }

  lemma MultisetPrefix<T>(s: seq<T>, n: nat)
    requires n <= |s|
    ensures multiset(s[..n]) <= multiset(s)
  {
    assert s == s[..n] + s[n..];
  }

  lemma {:induction false} PositiveSubMultiset(docs: seq<Document>, query: string)
    ensures multiset(Positive(docs, query)) <= multiset(docs)
  {
    if docs != [] {
      PositiveSubMultiset(docs[1..], query);
      assert docs == [docs[0]] + docs[1..];
    }
  }

  /** The retrieved documents are drawn from `docs`, each at most as often as it occurs there. */
  lemma RetrievedSubMultiset(docs: seq<Document>, query: string, topK: int)
    ensures multiset(Retrieve(docs, query, topK)) <= multiset(docs)
  {
    var sorted := SortByScore(Scored(docs, query));
    var n := SliceEnd(|sorted|, topK);
    assert DocsOf(sorted[..n]) == DocsOf(sorted)[..n];
    MultisetPrefix(DocsOf(sorted), n);
    DocsOfSort(Scored(docs, query));
    DocsOfScored(docs, query);
    PositiveSubMultiset(docs, query);
  }

  /** Only documents of `docs` with a positive score are returned. */
  lemma RetrievedArePositive(docs: seq<Document>, query: string, topK: int)
    ensures forall d :: d in Retrieve(docs, query, topK) ==> d in docs && Score(query, d.content) > 0
  {
    var sorted := SortByScore(Scored(docs, query));
    forall d | d in Retrieve(docs, query, topK) ensures d in docs && Score(query, d.content) > 0 {
      var i :| 0 <= i < |Retrieve(docs, query, topK)| && Retrieve(docs, query, topK)[i] == d;
      SortIsPermutation(Scored(docs, query));
      ScoredMembers(docs, query);
      assert sorted[i] in multiset(Scored(docs, query));
      assert sorted[i] in Scored(docs, query);
    }
  }

  /** The result has `min(top_k, P)` documents for `top_k >= 0`, and `max(0, P + top_k)` for a negative one, where `P` is the number of positively scored documents. */
  lemma RetrievedLength(docs: seq<Document>, query: string, topK: int)
    ensures var p := |Positive(docs, query)|;
      |Retrieve(docs, query, topK)| == if topK >= 0 then (if topK < p then topK else p)
                                        else (if p + topK > 0 then p + topK else 0)
  {
    DocsOfScored(docs, query);
    assert |SortByScore(Scored(docs, query))| == |multiset(Scored(docs, query))|;
  }

  /** The result is in non-increasing score order. */
  lemma RetrievedSorted(docs: seq<Document>, query: string, topK: int)
    ensures var out := Retrieve(docs, query, topK);
      forall i, j :: 0 <= i < j < |out| ==> Score(query, out[i].content) >= Score(query, out[j].content)
  {
    var sorted := SortByScore(Scored(docs, query));
    SortIsSorted(Scored(docs, query));
    SortedScoredFor(docs, query);
    assert forall i :: 0 <= i < |sorted| ==> sorted[i] in sorted;
  }

  /** In a list sorted by decreasing score, an entry after the first `n` scores no higher than one among them. */
  lemma SortedPrefixDominates(sorted: seq<Hit>, n: nat, d: Document, e: Document)
    requires SortedDesc(sorted) && n <= |sorted|
    requires d in DocsOf(sorted) && d !in DocsOf(sorted[..n]) && e in DocsOf(sorted[..n])
    ensures exists hd, he :: hd in sorted && he in sorted && hd.doc == d && he.doc == e && he.score >= hd.score
  {
    var prefix := DocsOf(sorted[..n]);
    var j :| 0 <= j < |sorted| && DocsOf(sorted)[j] == d;
    var i :| 0 <= i < n && prefix[i] == e;
    assert forall k :: 0 <= k < n ==> prefix[k] == sorted[k].doc;
    assert n <= j;
    assert sorted[i].score >= sorted[j].score;
    assert sorted[j] in sorted && sorted[i] in sorted;
  }

  /** A positively scored document is among the documents of the sorted results. */
  lemma PositiveIsRanked(docs: seq<Document>, query: string, d: Document)
    requires d in Positive(docs, query)
    ensures d in DocsOf(SortByScore(Scored(docs, query)))
  {
    DocsOfSort(Scored(docs, query));
    DocsOfScored(docs, query);
    assert d in multiset(Positive(docs, query));
  }

  /** The sorted results still carry their documents' (positive) scores. */
  lemma SortedScoredFor(docs: seq<Document>, query: string)
    ensures ScoredFor(SortByScore(Scored(docs, query)), query)
  {
    var hits := Scored(docs, query);
    SortIsPermutation(hits);
    ScoredMembers(docs, query);
    forall h | h in SortByScore(hits) ensures h.score == Score(query, h.doc.content) && h.score > 0 {
      assert h in multiset(hits);
    }
  }

  /** Every positively scored document left out scores no higher than any document returned. */
  lemma RetrievedAreTop(docs: seq<Document>, query: string, topK: int, d: Document, e: Document)
    requires d in Positive(docs, query) && d !in Retrieve(docs, query, topK)
    requires e in Retrieve(docs, query, topK)
    ensures Score(query, e.content) >= Score(query, d.content)
  {
    var sorted := SortByScore(Scored(docs, query));
    var n := SliceEnd(|sorted|, topK);
    assert Retrieve(docs, query, topK) == DocsOf(sorted[..n]);
    PositiveIsRanked(docs, query, d);
    SortIsSorted(Scored(docs, query));
    SortedPrefixDominates(sorted, n, d, e);
    SortedScoredFor(docs, query);
  }

  lemma {:induction false} WithScorePrefix(hs: seq<Hit>, n: nat, v: int)
    requires n <= |hs|
    ensures WithScore(hs[..n], v) <= WithScore(hs, v)
  {
    if n > 0 {
      assert hs[..n][1..] == hs[1..][..n - 1];
      WithScorePrefix(hs[1..], n - 1, v);
      var front: seq<Hit> := if hs[0].score == v then [hs[0]] else [];
      var a := WithScore(hs[1..][..n - 1], v);
      var b := WithScore(hs[1..], v);
      assert front + a == (front + b)[..|front + a|];
    }
  }

  lemma DocsOfPrefix(a: seq<Hit>, b: seq<Hit>)
    requires a <= b
    ensures DocsOf(a) <= DocsOf(b)
  {
    assert DocsOf(a) == DocsOf(b)[..|a|];
  }

  lemma DocsOfAppend(a: seq<Hit>, b: seq<Hit>)
    ensures DocsOf(a + b) == DocsOf(a) + DocsOf(b)
  {
    assert forall i :: 0 <= i < |a| ==> (a + b)[i] == a[i];
    assert forall i :: |a| <= i < |a + b| ==> (a + b)[i] == b[i - |a|];
  }

  lemma DocsOfWithScore(hs: seq<Hit>, query: string, v: int)
    requires ScoredFor(hs, query)
    ensures DocsScoring(DocsOf(hs), query, v) == DocsOf(WithScore(hs, v))
  {
    forall i | 0 <= i < |hs| ensures hs[i].score == Score(query, hs[i].doc.content) {
      assert hs[i] in hs;
    }
    DocsOfWithScoreAt(hs, query, v);
  }

  lemma {:induction false} DocsOfWithScoreAt(hs: seq<Hit>, query: string, v: int)
    requires forall i :: 0 <= i < |hs| ==> hs[i].score == Score(query, hs[i].doc.content)
    ensures DocsScoring(DocsOf(hs), query, v) == DocsOf(WithScore(hs, v))
  {
    if hs != [] {
      var h := hs[0];
      var rest := hs[1..];
      assert forall i :: 0 <= i < |rest| ==> rest[i] == hs[i + 1];
      DocsOfWithScoreAt(rest, query, v);
      var ds := DocsOf(hs);
      var dr := DocsOf(rest);
      assert ds == [h.doc] + dr;
      var hit := h.score == v;
      assert hit == (Score(query, ds[0].content) == v);
      assert ds[1..] == dr;
      var ws := WithScore(rest, v);
      var front: seq<Hit> := if hit then [h] else [];
      assert DocsScoring(ds, query, v) == (if hit then [h.doc] else []) + DocsScoring(dr, query, v);
      assert WithScore(hs, v) == front + ws;
      DocsOfAppend(front, ws);
      assert DocsOf(front) == if hit then [h.doc] else [];
    }
  }

  lemma {:induction false} ScoredWithScore(docs: seq<Document>, query: string, v: int)
    requires v > 0
    ensures DocsOf(WithScore(Scored(docs, query), v)) == DocsScoring(docs, query, v)
  {
    if docs != [] {
      var d := docs[0];
      var rest := Scored(docs[1..], query);
      ScoredWithScore(docs[1..], query, v);
      var s := Score(query, d.content);
      var front: seq<Hit> := if s > 0 then [Hit(s, d)] else [];
      assert Scored(docs, query) == front + rest;
      WithScoreAppend(front, rest, v);
      var wf := WithScore(front, v);
      assert wf == if s == v then [Hit(s, d)] else [];
      DocsOfAppend(wf, WithScore(rest, v));
      assert DocsOf(wf) == if s == v then [d] else [];
    }
  }

  lemma {:induction false} WithScoreAppend(a: seq<Hit>, b: seq<Hit>, v: int)
    ensures WithScore(a + b, v) == WithScore(a, v) + WithScore(b, v)
  {
    if a == [] {
      assert a + b == b;
    } else {
      var ab := a + b;
      assert ab[0] == a[0] && ab[1..] == a[1..] + b;
      var front := if a[0].score == v then [a[0]] else [];
      assert WithScore(ab, v) == front + WithScore(ab[1..], v);
      assert WithScore(a, v) == front + WithScore(a[1..], v);
      WithScoreAppend(a[1..], b, v);
    }
  }

  lemma {:induction false} NoneScoresNonPositive(ds: seq<Document>, query: string, v: int)
    requires v <= 0 && forall d :: d in ds ==> Score(query, d.content) > 0
    ensures DocsScoring(ds, query, v) == []
  {
    if ds != [] {
      assert forall d :: d in ds[1..] ==> d in ds;
      NoneScoresNonPositive(ds[1..], query, v);
    }
  }

  /**
   * Ties keep document order: for every score, the returned documents with
   * that score are the first ones of `docs` with that score, in order.
   */
  lemma RetrievedStable(docs: seq<Document>, query: string, topK: int, v: int)
    ensures DocsScoring(Retrieve(docs, query, topK), query, v) <= DocsScoring(docs, query, v)
  {
    var hits := Scored(docs, query);
    var sorted := SortByScore(hits);
    var n := SliceEnd(|sorted|, topK);
    if v <= 0 {
      RetrievedArePositive(docs, query, topK);
      NoneScoresNonPositive(Retrieve(docs, query, topK), query, v);
    } else {
      assert ScoredFor(sorted[..n], query) by {
        SortedScoredFor(docs, query);
        forall h | h in sorted[..n] ensures h.score == Score(query, h.doc.content) && h.score > 0 {
          assert h in sorted;
        }
      }
      DocsOfWithScore(sorted[..n], query, v);
      WithScorePrefix(sorted, n, v);
      DocsOfPrefix(WithScore(sorted[..n], v), WithScore(sorted, v));
      SortIsStable(hits, v);
      ScoredWithScore(docs, query, v);
    }
  }

  lemma {:induction false} DistinctMultiplicity<T>(s: seq<T>)
    requires Distinct(s)
    ensures forall x :: multiset(s)[x] <= 1
  {
    if s != [] {
      assert Distinct(s[1..]) by {
        forall i, j | 0 <= i < j < |s[1..]| ensures s[1..][i] != s[1..][j] {
          assert s[1..][i] == s[i + 1] && s[1..][j] == s[j + 1];
        }
      }
      DistinctMultiplicity(s[1..]);
      assert s == [s[0]] + s[1..];
      assert forall j :: 0 <= j < |s[1..]| ==> s[1..][j] != s[0];
      assert multiset(s[1..])[s[0]] == 0;
    }
  }

  lemma MultiplicityDistinct<T>(s: seq<T>)
    requires forall x :: multiset(s)[x] <= 1
    ensures Distinct(s)
  {
    forall i, j | 0 <= i < j < |s| ensures s[i] != s[j] {
      assert s == s[..j] + s[j..];
      assert s[..j][i] == s[i] && s[j..][0] == s[j];
      assert multiset(s)[s[j]] == multiset(s[..j])[s[j]] + multiset(s[j..])[s[j]];
      assert multiset(s[..j])[s[i]] >= 1 && multiset(s[j..])[s[j]] >= 1;
    }
  }

  /** A document list without repeats yields a result without repeats. */
  lemma RetrievedDistinct(docs: seq<Document>, query: string, topK: int)
    requires Distinct(docs)
    ensures Distinct(Retrieve(docs, query, topK))
  {
    RetrievedSubMultiset(docs, query, topK);
    DistinctMultiplicity(docs);
    MultiplicityDistinct(Retrieve(docs, query, topK));
  }

  // ---------------------------------------------------------------------------
  // format_docs
  // ---------------------------------------------------------------------------

  const Separator: string := "\n\n"

  /** `sep.join(parts)`. */
  function Join(parts: seq<string>, sep: string): string
  {
    if parts == [] then ""
    else if |parts| == 1 then parts[0]
    else parts[0] + sep + Join(parts[1..], sep)
  }

  function TotalLength(parts: seq<string>): nat
  {
    if parts == [] then 0 else |parts[0]| + TotalLength(parts[1..])
  }

  /** The joined text holds every part and one separator between neighbours. */
  lemma {:induction false} JoinLength(parts: seq<string>, sep: string)
    requires parts != []
    ensures |Join(parts, sep)| == TotalLength(parts) + (|parts| - 1) * |sep|
  {
    if |parts| > 1 {
      JoinLength(parts[1..], sep);
    } else {
      assert parts[1..] == [];
    }
  }

  /** Joining one more part appends a separator and that part. */
  lemma {:induction false} JoinAppend(parts: seq<string>, last: string, sep: string)
    requires parts != []
    ensures Join(parts + [last], sep) == Join(parts, sep) + sep + last
  {
    if |parts| == 1 {
      assert (parts + [last])[1..] == [last];
    } else {
      assert (parts + [last])[1..] == parts[1..] + [last];
      JoinAppend(parts[1..], last, sep);
    }
  }

  /** `format_docs`: the contents, in order, separated by a blank line. */
  function FormatDocs(docs: seq<Document>): (text: string)
    ensures docs == [] ==> text == ""
    ensures |docs| == 1 ==> text == docs[0].content
    ensures docs != [] ==> docs[0].content <= text
  {
    Join(seq(|docs|, i requires 0 <= i < |docs| => docs[i].content), Separator)
  }
}
