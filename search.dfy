/**
 * The inverted-index search engine (10.Simple_Search/SimpleSearchEngine.java).
 *
 * Documents get sequential ids; every token of a document's lower-cased text
 * gets a posting for its id; a query keeps the documents in the postings of
 * all its indexed words, with the quirk that an empty running set is
 * refilled by the next indexed word instead of staying empty.
 */
module Search {
  import opened Wrappers

  // ---------------------------------------------------------------- tokenizer

  /** `\w` in a Java regular expression without the Unicode flag. */
  predicate IsWordChar(c: char)
  {
    ('a' <= c <= 'z') || ('A' <= c <= 'Z') || ('0' <= c <= '9') || c == '_'
  }

  predicate IsUpper(c: char)
  {
    'A' <= c <= 'Z'
  }

  function LowerChar(c: char): (r: char)
    ensures !IsUpper(r)
    ensures IsWordChar(r) <==> IsWordChar(c)
    ensures !IsUpper(c) ==> r == c
  {
    if IsUpper(c) then (c as int + 32) as char else c
  }

  /** `toLowerCase`, on the ASCII letters. */
  function Lower(s: string): (r: string)
    ensures |r| == |s|
    ensures forall i :: 0 <= i < |s| ==> r[i] == LowerChar(s[i])
  {
    seq(|s|, i requires 0 <= i < |s| => LowerChar(s[i]))
  }

  /** `s` without its leading run of non-word characters. */
  function SkipNonWord(s: string): (r: string)
    ensures |r| <= |s|
    ensures r == [] || IsWordChar(r[0])
    ensures r == s[|s| - |r|..]
    ensures forall i :: 0 <= i < |s| - |r| ==> !IsWordChar(s[i])
  {
    if s == [] || IsWordChar(s[0]) then s else SkipNonWord(s[1..])
  }

  /** Splitting around every maximal run of non-word characters, before
    * Java drops the trailing empty strings: a leading run gives a leading
    * empty string, a trailing run a trailing one. */
  function RawSplit(s: string): (r: seq<string>)
    ensures |r| >= 1
    decreases |s|
  {
    if s == [] then [""]
    else if IsWordChar(s[0]) then
      var rest := RawSplit(s[1..]);
      [[s[0]] + rest[0]] + rest[1..]
    else
      [""] + RawSplit(SkipNonWord(s))
  }

  /** Java's `split` with no limit removes trailing empty strings. */
  function DropTrailingEmpty(r: seq<string>): (t: seq<string>)
    ensures |t| <= |r| && t == r[..|t|]
    ensures t == [] || t[|t| - 1] != ""
    ensures forall k :: |t| <= k < |r| ==> r[k] == ""
  {
    if r == [] || r[|r| - 1] != "" then r else DropTrailingEmpty(r[..|r| - 1])
  }

  /** `content.toLowerCase().split("\\W+")`.  An input without any match
    * of the pattern (only the empty string can be one after dropping
    * trailing empties) comes back as itself, so "" yields [""]. */
  function Tokens(s: string): seq<string>
  {
    var l := Lower(s);
    if l == "" then [""] else DropTrailingEmpty(RawSplit(l))
  }

  /** The characters of `s` that the tokenizer keeps, in order. */
  function WordChars(s: string): (r: string)
  {
    if s == [] then []
    else (if IsWordChar(s[0]) then [s[0]] else []) + WordChars(s[1..])
  }

  function Concat(r: seq<string>): string
  {
    if |r| == 0 then [] else r[0] + Concat(r[1..])
  }

  lemma {:induction false} WordCharsSkip(s: string)
    ensures WordChars(SkipNonWord(s)) == WordChars(s)
    decreases |s|
  {
    if s != [] && !IsWordChar(s[0]) {
      WordCharsSkip(s[1..]);
    }
  }

  /** Word characters only. */
  ghost predicate IsWordRun(t: string)
  {
    forall i :: 0 <= i < |t| ==> IsWordChar(t[i])
  }

  /** No upper-case letter. */
  ghost predicate NoUpper(t: string)
  {
    forall i :: 0 <= i < |t| ==> !IsUpper(t[i])
  }

  /** Splitting loses no word character and invents none. */
  lemma {:induction false} RawSplitConcat(s: string)
    ensures Concat(RawSplit(s)) == WordChars(s)
    decreases |s|
  {
    if s == [] {
    } else if IsWordChar(s[0]) {
      RawSplitConcat(s[1..]);
      WordStep(s);
    } else {
      RawSplitConcat(SkipNonWord(s));
      WordCharsSkip(s);
      SeparatorStep(s);
    }
  }

  /** A leading word character joins the first piece. */
  lemma WordStep(s: string)
    requires s != [] && IsWordChar(s[0])
    requires Concat(RawSplit(s[1..])) == WordChars(s[1..])
    ensures Concat(RawSplit(s)) == WordChars(s)
  {
    var rest := RawSplit(s[1..]);
    ConcatJoinFirst(s[0], rest[0], rest[1..]);
    assert rest == [rest[0]] + rest[1..];
    assert RawSplit(s) == [[s[0]] + rest[0]] + rest[1..];
    assert WordChars(s) == [s[0]] + WordChars(s[1..]);
  }

  lemma ConcatJoinFirst(c: char, x: string, tail: seq<string>)
    ensures Concat([[c] + x] + tail) == [c] + Concat([x] + tail)
  {
    var r := [[c] + x] + tail;
    var q := [x] + tail;
    assert r[1..] == tail && q[1..] == tail;
    var y := Concat(tail);
    assert Concat(q) == x + y;
    assert Concat(r) == ([c] + x) + y;
  }

  /** A leading separator run starts a new, empty piece. */
  lemma SeparatorStep(s: string)
    requires s != [] && !IsWordChar(s[0])
    requires Concat(RawSplit(SkipNonWord(s))) == WordChars(SkipNonWord(s)) == WordChars(s)
    ensures Concat(RawSplit(s)) == WordChars(s)
  {
    var r := RawSplit(s);
    assert r[0] == "" && r[1..] == RawSplit(SkipNonWord(s));
    assert Concat(r) == "" + Concat(r[1..]);
  }

  /** Every piece is a run of word characters, lower-case when the text is. */
  lemma {:induction false} RawSplitRuns(s: string)
    ensures forall k :: 0 <= k < |RawSplit(s)| ==> IsWordRun(RawSplit(s)[k])
    ensures NoUpper(s) ==> forall k :: 0 <= k < |RawSplit(s)| ==> NoUpper(RawSplit(s)[k])
    decreases |s|
  {
    if s == [] {
    } else if IsWordChar(s[0]) {
      var rest := RawSplit(s[1..]);
      RawSplitRuns(s[1..]);
      assert NoUpper(s) ==> !IsUpper(s[0]) && NoUpper(s[1..]);
      JoinFirstRuns(s[0], rest, NoUpper(s));
    } else {
      var t := SkipNonWord(s);
      RawSplitRuns(t);
      assert NoUpper(s) ==> NoUpper(t);
      PrependEmptyRuns(RawSplit(t), NoUpper(s));
    }
  }

  /** Every piece is a word run, and free of upper case when `lower` holds. */
  ghost predicate PiecesAreRuns(r: seq<string>, lower: bool)
  {
    forall k :: 0 <= k < |r| ==> IsWordRun(r[k]) && (lower ==> NoUpper(r[k]))
  }

  lemma JoinFirstRuns(c: char, rest: seq<string>, lower: bool)
    requires |rest| >= 1 && IsWordChar(c) && (lower ==> !IsUpper(c))
    requires forall k :: 0 <= k < |rest| ==> IsWordRun(rest[k])
    requires lower ==> forall k :: 0 <= k < |rest| ==> NoUpper(rest[k])
    ensures PiecesAreRuns([[c] + rest[0]] + rest[1..], lower)
  {
    var r := [[c] + rest[0]] + rest[1..];
    forall k | 0 <= k < |r|
      ensures IsWordRun(r[k]) && (lower ==> NoUpper(r[k]))
    {
      if k > 0 {
        assert r[k] == rest[k];
      } else {
        assert r[0] == [c] + rest[0];
      }
    }
  }

  lemma PrependEmptyRuns(rest: seq<string>, lower: bool)
    requires forall k :: 0 <= k < |rest| ==> IsWordRun(rest[k])
    requires lower ==> forall k :: 0 <= k < |rest| ==> NoUpper(rest[k])
    ensures PiecesAreRuns([""] + rest, lower)
  {
    var r := [""] + rest;
    forall k | 0 < k < |r|
      ensures r[k] == rest[k - 1]
    {
    }
  }

  /** Only the first and the last piece can be empty, and the first only
    * when the text starts with a separator or is empty. */
  lemma {:induction false} RawSplitInnerNonEmpty(s: string)
    ensures forall k :: 0 < k < |RawSplit(s)| - 1 ==> RawSplit(s)[k] != ""
    ensures s != [] && IsWordChar(s[0]) ==> RawSplit(s)[0] != ""
    decreases |s|
  {
    if s == [] {
    } else if IsWordChar(s[0]) {
      var rest := RawSplit(s[1..]);
      RawSplitInnerNonEmpty(s[1..]);
      var r := RawSplit(s);
      forall k | 0 < k < |r| - 1
        ensures r[k] != ""
      {
        assert r[k] == rest[k];
      }
    } else {
      var t := SkipNonWord(s);
      RawSplitInnerNonEmpty(t);
      var r := RawSplit(s);
      forall k | 0 < k < |r| - 1
        ensures r[k] != ""
      {
        assert r[k] == RawSplit(t)[k - 1];
      }
    }
  }

  lemma {:induction false} ConcatDropTrailing(r: seq<string>)
    ensures Concat(DropTrailingEmpty(r)) == Concat(r)
    decreases |r|
  {
    if r != [] && r[|r| - 1] == "" {
      var p := r[..|r| - 1];
      ConcatDropTrailing(p);
      ConcatSnoc(p, "");
      assert p + [""] == r;
    }
  }

  lemma {:induction false} ConcatSnoc(r: seq<string>, x: string)
    ensures Concat(r + [x]) == Concat(r) + x
    decreases |r|
  {
    if r != [] {
      ConcatSnoc(r[1..], x);
      assert (r + [x])[1..] == r[1..] + [x];
    }
  }

  /** The tokenizer's contract: the tokens are lower-case runs of word
    * characters that together hold exactly the word characters of the
    * lower-cased text, in order; only the first token can be empty (text
    * that starts with a separator, or the empty text). */
  lemma TokensFacts(s: string)
    ensures Concat(Tokens(s)) == WordChars(Lower(s))
    ensures forall k :: 0 <= k < |Tokens(s)| ==> IsWordRun(Tokens(s)[k]) && NoUpper(Tokens(s)[k])
    ensures forall k :: 0 < k < |Tokens(s)| ==> Tokens(s)[k] != ""
  {
    var l := Lower(s);
    if l != "" {
      var r := RawSplit(l);
      RawSplitConcat(l);
      RawSplitRuns(l);
      RawSplitInnerNonEmpty(l);
      ConcatDropTrailing(r);
      var t := DropTrailingEmpty(r);
      assert t == Tokens(s);
      forall k | 0 <= k < |t|
        ensures t[k] == r[k]
      {
      }
    }
  }

  // ---------------------------------------------------------------- querying

  type Index = map<string, set<nat>>

  /** The documents listed under `w`; no entry means none. */
  function Postings(index: Index, w: string): set<nat>
  {
    if w in index then index[w] else {}
  }

  /** One query word's effect on the running set: an unindexed word is
    * skipped, an empty set is refilled, a non-empty one is intersected. */
  function Step(index: Index, acc: set<nat>, w: string): (r: set<nat>)
  {
    if w !in index then acc
    else if acc == {} then index[w]
    else acc * index[w]
  }

  /** The running set after the words of `words`, left to right. */
  function Narrow(index: Index, words: seq<string>, acc: set<nat>): set<nat>
    decreases |words|
  {
    if words == [] then acc else Narrow(index, words[1..], Step(index, acc, words[0]))
  }

  /** The documents `search` returns for a query with these words. */
  function Matches(index: Index, words: seq<string>): set<nat>
  {
    Narrow(index, words, {})
  }

  lemma {:induction false} NarrowConcat(index: Index, u: seq<string>, v: seq<string>, acc: set<nat>)
    ensures Narrow(index, u + v, acc) == Narrow(index, v, Narrow(index, u, acc))
    decreases |u|
  {
    if u == [] {
      assert u + v == v;
    } else {
      assert (u + v)[0] == u[0] && (u + v)[1..] == u[1..] + v;
      NarrowConcat(index, u[1..], v, Step(index, acc, u[0]));
    }
  }

  /** A query word absent from the index is skipped. */
  lemma UnindexedWordSkipped(index: Index, u: seq<string>, w: string, v: seq<string>, acc: set<nat>)
    requires w !in index
    ensures Narrow(index, u + [w] + v, acc) == Narrow(index, u + v, acc)
  {
    NarrowConcat(index, u + [w], v, acc);
    NarrowConcat(index, u, [w], acc);
    NarrowConcat(index, u, v, acc);
  }

  /** A query none of whose words is indexed finds nothing. */
  lemma {:induction false} NoIndexedWordNoMatch(index: Index, words: seq<string>, acc: set<nat>)
    requires forall k :: 0 <= k < |words| ==> words[k] !in index
    ensures Narrow(index, words, acc) == acc
    decreases |words|
  {
    if words != [] {
      NoIndexedWordNoMatch(index, words[1..], acc);
    }
  }

  /** Every query word is indexed and lists document `id`. */
  ghost predicate ContainsAll(index: Index, words: seq<string>, id: nat)
  {
    forall k :: 0 <= k < |words| ==> words[k] in index && id in index[words[k]]
  }

  /** While the running set stays non-empty it is a plain intersection. */
  lemma {:induction false} NarrowIntersects(index: Index, words: seq<string>, acc: set<nat>, sample: nat)
    requires sample in acc && ContainsAll(index, words, sample)
    ensures forall id :: id in Narrow(index, words, acc) <==> id in acc && ContainsAll(index, words, id)
    decreases |words|
  {
    if words != [] {
      var next := Step(index, acc, words[0]);
      assert next == acc * index[words[0]];
      NarrowIntersects(index, words[1..], next, sample);
      forall id
        ensures ContainsAll(index, words, id) <==> id in index[words[0]] && ContainsAll(index, words[1..], id)
      {
        if id in index[words[0]] && ContainsAll(index, words[1..], id) {
          forall k | 0 <= k < |words|
            ensures words[k] in index && id in index[words[k]]
          {
            if k > 0 {
              assert words[k] == words[1..][k - 1];
            }
          }
        }
      }
    }
  }

  /** When some document lists every query word, the running set never
    * empties, and the query finds exactly the documents listed under every
    * word. */
  lemma MatchesAreIntersection(index: Index, words: seq<string>, sample: nat)
    requires words != [] && ContainsAll(index, words, sample)
    ensures forall id :: id in Matches(index, words) <==> ContainsAll(index, words, id)
  {
    var first := index[words[0]];
    NarrowIntersects(index, words[1..], first, sample);
    forall id
      ensures ContainsAll(index, words, id) <==> id in first && ContainsAll(index, words[1..], id)
    {
      if id in first && ContainsAll(index, words[1..], id) {
        forall k | 0 <= k < |words|
          ensures words[k] in index && id in index[words[k]]
        {
          if k > 0 {
            assert words[k] == words[1..][k - 1];
          }
        }
      }
    }
  }

  /** The refill quirk: after "a" and "b" share no document the running set
    * is empty, and "c" refills it, so a document without "a" is found. */
  lemma EmptyRunningSetRefilled()
    ensures var index := map["a" := {0}, "b" := {1}, "c" := {1}];
            Matches(index, ["a", "b", "c"]) == {1} && 1 !in index["a"]
  {
    var index := map["a" := {0}, "b" := {1}, "c" := {1}];
    var words := ["a", "b", "c"];
    assert Step(index, {}, "a") == {0};
    assert Step(index, {0}, "b") == {};
    assert Step(index, {}, "c") == {1};
    assert words[1..] == ["b", "c"] && words[1..][1..] == ["c"] && words[1..][1..][1..] == [];
  }

  // The conjunctive search the refill quirk departs from: the running set
  // starts out as "not yet constrained" rather than as an empty set, so an
  // emptied intersection stays empty.

  /** Every indexed word of `words` lists `id`. */
  ghost predicate ContainsIndexed(index: Index, words: seq<string>, id: nat)
  {
    forall k :: 0 <= k < |words| && words[k] in index ==> id in index[words[k]]
  }

  /** One query word's effect when `None` stands for "no indexed word yet". */
  function AndStep(index: Index, acc: Option<set<nat>>, w: string): Option<set<nat>>
  {
    if w !in index then acc
    else if acc.None? then Some(index[w])
    else Some(acc.value * index[w])
  }

  function AndNarrow(index: Index, words: seq<string>, acc: Option<set<nat>>): Option<set<nat>>
    decreases |words|
  {
    if words == [] then acc else AndNarrow(index, words[1..], AndStep(index, acc, words[0]))
  }

  /** The documents listed under every indexed query word; none when no
    * query word is indexed. */
  function IntendedMatches(index: Index, words: seq<string>): set<nat>
  {
    var r := AndNarrow(index, words, None);
    if r.None? then {} else r.value
  }

  lemma {:induction false} AndNarrowFacts(index: Index, words: seq<string>, acc: Option<set<nat>>)
    ensures AndNarrow(index, words, acc).None? <==>
              acc.None? && forall k :: 0 <= k < |words| ==> words[k] !in index
    ensures AndNarrow(index, words, acc).Some? ==>
              forall id :: id in AndNarrow(index, words, acc).value <==>
                (acc.Some? ==> id in acc.value) && ContainsIndexed(index, words, id)
    decreases |words|
  {
    if words != [] {
      var next := AndStep(index, acc, words[0]);
      AndNarrowFacts(index, words[1..], next);
      forall k | 0 < k < |words|
        ensures words[k] == words[1..][k - 1]
      {
      }
      forall id
        ensures ContainsIndexed(index, words, id) <==>
                  (words[0] in index ==> id in index[words[0]]) && ContainsIndexed(index, words[1..], id)
      {
        if (words[0] in index ==> id in index[words[0]]) && ContainsIndexed(index, words[1..], id) {
          forall k | 0 <= k < |words| && words[k] in index
            ensures id in index[words[k]]
          {
            if k > 0 {
              assert words[k] == words[1..][k - 1];
            }
          }
        }
      }
      if acc.None? && forall k :: 0 <= k < |words[1..]| ==> words[1..][k] !in index {
        if words[0] !in index {
          forall k | 0 <= k < |words|
            ensures words[k] !in index
          {
            if k > 0 {
              assert words[k] == words[1..][k - 1];
            }
          }
        }
      }
    }
  }

  /** The intended search finds exactly the documents listed under every
    * indexed query word, provided some query word is indexed. */
  lemma IntendedMatchesAreIntersection(index: Index, words: seq<string>)
    ensures forall id :: id in IntendedMatches(index, words) <==>
              (exists k :: 0 <= k < |words| && words[k] in index) && ContainsIndexed(index, words, id)
  {
    AndNarrowFacts(index, words, None);
  }

  /** On the quirk's index the intended search finds nothing: no document
    * lists both "a" and "b". */
  lemma IntendedKeepsEmptyIntersection()
    ensures var index := map["a" := {0}, "b" := {1}, "c" := {1}];
            IntendedMatches(index, ["a", "b", "c"]) == {}
  {
    var index := map["a" := {0}, "b" := {1}, "c" := {1}];
    var words := ["a", "b", "c"];
    assert AndStep(index, None, "a") == Some({0});
    assert {0} * {1} == {} by {
      assert 0 !in {1};
    }
    assert AndStep(index, Some({0}), "b") == Some({});
    assert AndStep(index, Some({}), "c") == Some({});
    assert words[1..] == ["b", "c"] && words[1..][1..] == ["c"] && words[1..][1..][1..] == [];
  }

  /** Everything found is listed under some indexed query word. */
  lemma {:induction false} MatchesListed(index: Index, words: seq<string>, acc: set<nat>, id: nat)
    requires id in Narrow(index, words, acc) && id !in acc
    ensures exists k :: 0 <= k < |words| && words[k] in index && id in index[words[k]]
    decreases |words|
  {
    var next := Step(index, acc, words[0]);
    if id in next {
      assert words[0] in index && id in index[words[0]];
    } else {
      MatchesListed(index, words[1..], next, id);
      var k :| 0 <= k < |words[1..]| && words[1..][k] in index && id in index[words[1..][k]];
      assert words[k + 1] == words[1..][k];
    }
  }

  // ---------------------------------------------------------------- the engine

  /** Every posting names a stored document that has the word as a token. */
  ghost predicate PostingsSound(index: Index, documents: map<nat, string>)
  {
    forall w, id {:trigger id in Postings(index, w)} ::
      id in Postings(index, w) ==> id in documents && w in Tokens(documents[id])
  }

  /** Every token of every stored document has a posting for it. */
  ghost predicate PostingsComplete(index: Index, documents: map<nat, string>)
  {
    forall id, w {:trigger w in Tokens(documents[id])} ::
      id in documents && w in Tokens(documents[id]) ==> id in Postings(index, w)
  }

  /** The index lists a document under a word exactly when the word is one
    * of the document's tokens. */
  ghost predicate IndexOf(index: Index, documents: map<nat, string>)
  {
    PostingsSound(index, documents) && PostingsComplete(index, documents)
  }

  /** The ids of `documents` are 0 up to `n`, exclusive. */
  ghost predicate Numbered(documents: map<nat, string>, n: nat)
  {
    forall id: nat :: id in documents <==> id < n
  }

  lemma NumberedAdd(documents: map<nat, string>, n: nat, content: string)
    requires Numbered(documents, n)
    ensures Numbered(documents[n := content], n + 1)
  {
  }

  /** The index after adding `id` under each of `words`, left to right. */
  function AddPostings(index: Index, words: seq<string>, id: nat): Index
    decreases |words|
  {
    if words == [] then index
    else AddPostings(index[words[0] := Postings(index, words[0]) + {id}], words[1..], id)
  }

  /** Adding a document's words creates the missing entries and adds the id
    * to the postings of exactly those words. */
  lemma {:induction false} AddPostingsFacts(index: Index, words: seq<string>, id: nat)
    ensures forall w :: w in AddPostings(index, words, id) <==> w in index || w in words
    ensures forall w :: Postings(AddPostings(index, words, id), w)
                        == Postings(index, w) + (if w in words then {id} else {})
    decreases |words|
  {
    if words != [] {
      var next := index[words[0] := Postings(index, words[0]) + {id}];
      AddPostingsFacts(next, words[1..], id);
      forall w
        ensures w in words <==> w == words[0] || w in words[1..]
      {
        assert words == [words[0]] + words[1..];
      }
    }
  }

  class SimpleSearchEngine {
    var invertedIndex: Index
    var documents: map<nat, string>
    var docIdCounter: nat

    /** Documents are numbered from 0 without gaps, and the index is the
      * inverted view of their tokens. */
    ghost predicate Valid()
      reads this
    {
      Numbered(documents, docIdCounter) && IndexOf(invertedIndex, documents)
    }

    constructor ()
      ensures Valid()
      ensures invertedIndex == map[] && documents == map[] && docIdCounter == 0
    {
      invertedIndex := map[];
      documents := map[];
      docIdCounter := 0;
    }

    /** `indexDocument`: stores `content` under the next id and adds that id
      * to the postings of each of its tokens (creating missing entries). */
    method IndexDocument(content: string)
      requires Valid()
      modifies this
      ensures Valid()
      ensures docIdCounter == old(docIdCounter) + 1
      ensures documents == old(documents)[old(docIdCounter) := content]
      ensures forall w :: w in invertedIndex <==> w in old(invertedIndex) || w in Tokens(content)
      ensures forall w :: Postings(invertedIndex, w)
                          == Postings(old(invertedIndex), w) + (if w in Tokens(content) then {old(docIdCounter)} else {})
    {
      var docId := docIdCounter;
      docIdCounter := docIdCounter + 1;
      documents := documents[docId := content];
      var words := Tokens(content);
      var i := 0;
      while i < |words|
        invariant 0 <= i <= |words|
        invariant documents == old(documents)[docId := content] && docIdCounter == docId + 1
        invariant AddPostings(invertedIndex, words[i..], docId) == AddPostings(old(invertedIndex), words, docId)
      {
        assert words[i..][1..] == words[i + 1..];
        var w := words[i];
        invertedIndex := invertedIndex[w := Postings(invertedIndex, w) + {docId}];
        i := i + 1;
      }
      assert words[i..] == [];
      AddPostingsFacts(old(invertedIndex), words, docId);
      NewDocumentIndexed(old(invertedIndex), old(documents), invertedIndex, docId, content);
      NumberedAdd(old(documents), docId, content);
    }

    /** `search`: runs the query's words through the running set, then
      * returns the stored text of each document found, once each, in the
      * set's iteration order (`order`). */
    method Search(query: string) returns (results: seq<string>, ghost order: seq<nat>)
      requires Valid()
      ensures Distinct(order)
      ensures forall id :: id in order <==> id in Matches(invertedIndex, Tokens(query))
      ensures |results| == |order|
      ensures forall k :: 0 <= k < |order| ==> order[k] in documents && results[k] == documents[order[k]]
    {
      var words := Tokens(query);
      var resultDocs: set<nat> := {};
      var i := 0;
      while i < |words|
        invariant 0 <= i <= |words|
        invariant Narrow(invertedIndex, words[i..], resultDocs) == Matches(invertedIndex, words)
      {
        assert words[i..][1..] == words[i + 1..];
        var w := words[i];
        if w in invertedIndex {
          if resultDocs == {} {
            resultDocs := invertedIndex[w];
          } else {
            resultDocs := resultDocs * invertedIndex[w];
          }
        }
        i := i + 1;
      }
      assert words[i..] == [];
      MatchesAreDocuments(invertedIndex, documents, words, {});
      results := [];
      order := [];
      var todo := resultDocs;
      while todo != {}
        invariant todo <= resultDocs
        invariant forall id :: id in order <==> id in resultDocs && id !in todo
        invariant Distinct(order)
        invariant |results| == |order|
        invariant forall k :: 0 <= k < |order| ==> order[k] in documents && results[k] == documents[order[k]]
        decreases todo
      {
        var id :| id in todo;
        DistinctSnoc(order, id);
        results := results + [documents[id]];
        order := order + [id];
        todo := todo - {id};
      }
    }
  }

  /** Adding document `id` with text `content` to a consistent index keeps it
    * consistent. */
  lemma NewDocumentIndexed(index0: Index, docs0: map<nat, string>, index: Index, id: nat, content: string)
    requires IndexOf(index0, docs0) && id !in docs0
    requires forall w :: Postings(index, w) == Postings(index0, w) + (if w in Tokens(content) then {id} else {})
    ensures IndexOf(index, docs0[id := content])
  {
    var docs := docs0[id := content];
    forall w, d | d in Postings(index, w)
      ensures d in docs && w in Tokens(docs[d])
    {
      if d != id {
        assert d in Postings(index0, w);
      }
    }
    forall d, w | d in docs && w in Tokens(docs[d])
      ensures d in Postings(index, w)
    {
      if d != id {
        assert w in Tokens(docs0[d]);
        assert d in Postings(index0, w);
      }
    }
  }

  /** Everything a query finds over a consistent index is a stored document. */
  lemma MatchesAreDocuments(index: Index, documents: map<nat, string>, words: seq<string>, acc: set<nat>)
    requires IndexOf(index, documents) && acc <= documents.Keys
    ensures Narrow(index, words, acc) <= documents.Keys
  {
    forall id | id in Narrow(index, words, acc)
      ensures id in documents
    {
      if id !in acc {
        MatchesListed(index, words, acc, id);
        var k :| 0 <= k < |words| && words[k] in index && id in index[words[k]];
        assert id in Postings(index, words[k]);
      }
    }
  }

  /** Over a consistent index, a query all of whose words some document
    * contains finds exactly the documents containing all its words. */
  lemma SearchFindsDocumentsWithAllWords(index: Index, documents: map<nat, string>, words: seq<string>, sample: nat)
    requires IndexOf(index, documents) && words != []
    requires sample in documents && forall k :: 0 <= k < |words| ==> words[k] in Tokens(documents[sample])
    ensures forall id :: id in Matches(index, words) <==>
      id in documents && forall k :: 0 <= k < |words| ==> words[k] in Tokens(documents[id])
  {
    forall k | 0 <= k < |words|
      ensures words[k] in index && sample in index[words[k]]
    {
      assert sample in Postings(index, words[k]);
    }
    MatchesAreIntersection(index, words, sample);
    forall id
      ensures ContainsAll(index, words, id) <==>
        id in documents && forall k :: 0 <= k < |words| ==> words[k] in Tokens(documents[id])
    {
      if id in documents && forall k :: 0 <= k < |words| ==> words[k] in Tokens(documents[id]) {
        forall k | 0 <= k < |words|
          ensures words[k] in index && id in index[words[k]]
        {
          assert id in Postings(index, words[k]);
        }
      }
      if ContainsAll(index, words, id) {
        assert id in Postings(index, words[0]);
        forall k | 0 <= k < |words|
          ensures words[k] in Tokens(documents[id])
        {
          assert id in Postings(index, words[k]);
        }
      }
    }
  }
}
