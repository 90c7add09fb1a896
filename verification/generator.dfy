/**
 Candidate-domain generation: the stripped, non-blank lines of the input files,
 and the word-major cross product of words and top-level domains.
 File contents are given as the sequence of their raw lines.
 */
module Generator {
  import opened Options
  import opened Seqs
  import opened Text

  /** What one raw line contributes: its stripped text, or nothing if that is empty. */
  function StripPick(line: string): Option<string>
  {
    var t := Strip(line);
    if |t| == 0 then None else Some(t)
  }

  /** The stripped text of every line that is not all whitespace, in order. */
  function KeepStripped(lines: seq<string>): (r: seq<string>)
    ensures |r| <= |lines|
    ensures forall x :: x in r ==> |x| > 0 && IsStripped(x)
  {
    FilterMap(lines, StripPick)
  }

  /** A line is kept, stripped, exactly when it is not all whitespace. */
  lemma KeepStrippedMembers(lines: seq<string>)
    ensures forall x :: x in KeepStripped(lines) <==>
              |x| > 0 && exists line :: line in lines && Strip(line) == x
  {
    FilterMapMembers(lines, StripPick);
  }

  /** Whitespace-only lines contribute nothing wherever they occur. */
  lemma KeepStrippedSkipsBlank(before: seq<string>, blank: seq<string>, after: seq<string>)
    requires forall line :: line in blank ==> AllWhitespace(line)
    ensures KeepStripped(before + blank + after) == KeepStripped(before + after)
  {
    FilterMapNothing(blank, StripPick);
    FilterMapAppend(before + blank, after, StripPick);
    FilterMapAppend(before, blank, StripPick);
    FilterMapAppend(before, after, StripPick);
    assert FilterMap(before + blank, StripPick) == FilterMap(before, StripPick);
  }

  /** Lines that are already stripped and non-empty are read back unchanged. */
  lemma KeepStrippedClean(lines: seq<string>)
    requires forall line :: line in lines ==> |line| > 0 && IsStripped(line)
    ensures KeepStripped(lines) == lines
  {
    forall line | line in lines ensures StripPick(line) == Some(line) {
      StripPadded([], line, []);
      assert [] + line + [] == line;
    }
    FilterMapIdentity(lines, StripPick);
  }

  /** The domains of one word under every TLD, in TLD order. */
  function Qualify(word: string, tlds: seq<string>): (r: seq<string>)
    ensures |r| == |tlds|
    ensures forall j :: 0 <= j < |tlds| ==> r[j] == word + "." + tlds[j]
  {
    if |tlds| == 0 then [] else [word + "." + tlds[0]] + Qualify(word, tlds[1..])
  }

  /** Every word joined to every TLD by a dot, words outer and TLDs inner. */
  function CrossProduct(words: seq<string>, tlds: seq<string>): (r: seq<string>)
    ensures |r| == |words| * |tlds|
  {
    if |words| == 0 then []
    else
      var r := Qualify(words[0], tlds) + CrossProduct(words[1..], tlds);
      assert |r| == |tlds| + (|words| - 1) * |tlds|;
      r
  }

  /** Word-major, TLD-minor order: entry i * |tlds| + j joins word i and TLD j. */
  lemma {:induction false} CrossProductAt(words: seq<string>, tlds: seq<string>, i: int, j: int)
    requires 0 <= i < |words| && 0 <= j < |tlds|
    ensures 0 <= i * |tlds| + j < |CrossProduct(words, tlds)|
    ensures CrossProduct(words, tlds)[i * |tlds| + j] == words[i] + "." + tlds[j]
  {
    MulMono(0, i, |tlds|);
    MulLess(i, |words|, |tlds|);
    var head := Qualify(words[0], tlds);
    if i > 0 {
      CrossProductAt(words[1..], tlds, i - 1, j);
      assert i * |tlds| + j == |tlds| + ((i - 1) * |tlds| + j);
    }
  }

  /** The inverse index map: entry k joins word k / |tlds| and TLD k % |tlds|. */
  lemma CrossProductIndex(words: seq<string>, tlds: seq<string>, k: int)
    requires 0 <= k < |CrossProduct(words, tlds)|
    ensures 0 <= k / |tlds| < |words| && 0 <= k % |tlds| < |tlds|
    ensures CrossProduct(words, tlds)[k] == words[k / |tlds|] + "." + tlds[k % |tlds|]
  {
    var m := |tlds|;
    assert m > 0;
    DivBelow(k, |words|, m);
    CrossProductAt(words, tlds, k / m, k % m);
  }

  /** Every entry is some word joined to some TLD, and every such pair is an entry. */
  lemma CrossProductMembers(words: seq<string>, tlds: seq<string>)
    ensures forall x :: x in CrossProduct(words, tlds) <==>
              exists i, j :: 0 <= i < |words| && 0 <= j < |tlds| && x == words[i] + "." + tlds[j]
  {
    var r := CrossProduct(words, tlds);
    forall x
      ensures x in r <==> exists i, j :: 0 <= i < |words| && 0 <= j < |tlds| && x == words[i] + "." + tlds[j]
    {
      if x in r {
        CrossProductSources(words, tlds);
      }
      if exists i, j :: 0 <= i < |words| && 0 <= j < |tlds| && x == words[i] + "." + tlds[j] {
        var i, j :| 0 <= i < |words| && 0 <= j < |tlds| && x == words[i] + "." + tlds[j];
        CrossProductAt(words, tlds, i, j);
      }
    }
  }

  lemma CrossProductSources(words: seq<string>, tlds: seq<string>)
    ensures forall x :: x in CrossProduct(words, tlds) ==>
              exists i, j :: 0 <= i < |words| && 0 <= j < |tlds| && x == words[i] + "." + tlds[j]
  {
    var r := CrossProduct(words, tlds);
    forall k | 0 <= k < |r|
      ensures exists i, j :: 0 <= i < |words| && 0 <= j < |tlds| && r[k] == words[i] + "." + tlds[j]
    {
      CrossProductIndex(words, tlds, k);
    }
  }

  /** Multiplication by a positive factor is strictly monotone. */
  lemma MulLess(a: int, b: int, m: int)
    requires 0 <= a < b && 0 < m
    ensures a * m + m <= b * m
  {
    MulMono(a + 1, b, m);
    assert (a + 1) * m == a * m + m;
  }

  lemma {:induction false} MulMono(a: int, b: int, m: int)
    requires 0 <= a <= b && 0 <= m
    ensures a * m <= b * m
    decreases b - a
  {
    if a < b {
      MulMono(a + 1, b, m);
      assert (a + 1) * m == a * m + m;
    }
  }

  /** Below n * m, the quotient by m is below n. */
  lemma DivBelow(k: int, n: int, m: int)
    requires 0 <= k < n * m && 0 < m
    ensures k / m < n && k == (k / m) * m + k % m
  {
    if k / m >= n {
      MulMono(n, k / m, m);
    }
  }

  /** `generate_domains`: the cross product of the kept words and the kept TLDs. */
  function GenerateDomains(wordLines: seq<string>, tldLines: seq<string>): (r: seq<string>)
    ensures |r| == |KeepStripped(wordLines)| * |KeepStripped(tldLines)|
  {
    CrossProduct(KeepStripped(wordLines), KeepStripped(tldLines))
  }

  /** Generation is empty exactly when no word or no TLD survives filtering. */
  lemma GenerateDomainsEmpty(wordLines: seq<string>, tldLines: seq<string>)
    ensures GenerateDomains(wordLines, tldLines) == [] <==>
              KeepStripped(wordLines) == [] || KeepStripped(tldLines) == []
  {
    var n, m := |KeepStripped(wordLines)|, |KeepStripped(tldLines)|;
    if n > 0 && m > 0 {
      MulLess(0, n, m);
    }
  }

  /** The entry at i * |T| + j is word i of W, a dot, and TLD j of T, where W and T are the kept lines. */
  lemma GenerateDomainsAt(wordLines: seq<string>, tldLines: seq<string>)
    ensures var W, T, r := KeepStripped(wordLines), KeepStripped(tldLines), GenerateDomains(wordLines, tldLines);
            forall i, j :: 0 <= i < |W| && 0 <= j < |T| ==>
              0 <= GridIndex(i, j, |T|) < |r| && r[GridIndex(i, j, |T|)] == W[i] + "." + T[j]
  {
    var W, T := KeepStripped(wordLines), KeepStripped(tldLines);
    forall i, j | 0 <= i < |W| && 0 <= j < |T|
      ensures 0 <= GridIndex(i, j, |T|) < |CrossProduct(W, T)|
      ensures CrossProduct(W, T)[GridIndex(i, j, |T|)] == W[i] + "." + T[j]
    {
      CrossProductAt(W, T, i, j);
    }
  }

  /** Position of row i, column j in a row-major grid of the given width. */
  function GridIndex(i: int, j: int, width: int): int
  {
    i * width + j
  }

  /** Joining two stripped, non-empty strings around a dot gives a stripped string. */
  lemma JoinStripped(word: string, tld: string)
    requires |word| > 0 && IsStripped(word) && |tld| > 0 && IsStripped(tld)
    ensures IsStripped(word + "." + tld)
  {
    var x := word + "." + tld;
    assert x[0] == word[0];
    assert x[|x| - 1] == tld[|tld| - 1];
  }

  /** Every generated domain is non-empty, stripped and contains a dot. */
  lemma GenerateDomainsClean(wordLines: seq<string>, tldLines: seq<string>)
    ensures forall x :: x in GenerateDomains(wordLines, tldLines) ==>
              |x| > 0 && IsStripped(x) && '.' in x
  {
    var W, T := KeepStripped(wordLines), KeepStripped(tldLines);
    CrossProductMembers(W, T);
    forall x | x in GenerateDomains(wordLines, tldLines)
      ensures |x| > 0 && IsStripped(x) && '.' in x
    {
      var i, j :| 0 <= i < |W| && 0 <= j < |T| && x == W[i] + "." + T[j];
      assert W[i] in W && T[j] in T;
      JoinStripped(W[i], T[j]);
      assert x[|W[i]|] == '.';
    }
  }

  /**
   Two word lines and two TLD lines (one of them blank in between) give the
   four domains in word-major order, e.g. foo, bar and com, net give
   foo.com, foo.net, bar.com, bar.net.
   */
  lemma GenerateDomainsExample(w1: string, w2: string, t1: string, t2: string)
    requires forall x :: x in [w1, w2, t1, t2] ==> |x| > 0 && IsStripped(x)
    ensures GenerateDomains([w1 + "\n", w2 + "\n"], [t1 + "\n", " \n", t2]) ==
            [w1 + "." + t1, w1 + "." + t2, w2 + "." + t1, w2 + "." + t2]
  {
    assert w1 in [w1, w2, t1, t2] && w2 in [w1, w2, t1, t2];
    assert t1 in [w1, w2, t1, t2] && t2 in [w1, w2, t1, t2];
    ExampleWords(w1, w2);
    ExampleTlds(t1, t2);
    ExampleCross(w1, w2, t1, t2);
  }

  lemma ExampleWords(w1: string, w2: string)
    requires |w1| > 0 && IsStripped(w1) && |w2| > 0 && IsStripped(w2)
    ensures KeepStripped([w1 + "\n", w2 + "\n"]) == [w1, w2]
  {
    ExampleLine(w1, "\n");
    ExampleLine(w2, "\n");
    ExampleTwoLines(w1 + "\n", w2 + "\n", w1, w2);
  }

  lemma ExampleTlds(t1: string, t2: string)
    requires |t1| > 0 && IsStripped(t1) && |t2| > 0 && IsStripped(t2)
    ensures KeepStripped([t1 + "\n", " \n", t2]) == [t1, t2]
  {
    ExampleLine(t1, "\n");
    ExampleLine(t2, "");
    assert t2 + "" == t2;
    ExampleBlank();
    ExampleThreeLines(t1 + "\n", " \n", t2, t1, t2);
  }

  lemma ExampleTwoLines(a: string, b: string, x: string, y: string)
    requires KeepStripped([a]) == [x] && KeepStripped([b]) == [y]
    ensures KeepStripped([a, b]) == [x, y]
  {
    KeepStrippedAppend([a], [b]);
    assert [a] + [b] == [a, b];
  }

  lemma ExampleThreeLines(a: string, b: string, c: string, x: string, y: string)
    requires KeepStripped([a]) == [x] && KeepStripped([b]) == [] && KeepStripped([c]) == [y]
    ensures KeepStripped([a, b, c]) == [x, y]
  {
    var ab := [a, b];
    assert KeepStripped(ab) == [x] by {
      KeepStrippedAppend([a], [b]);
      assert [a] + [b] == ab;
      assert [x] + [] == [x];
    }
    KeepStrippedAppend(ab, [c]);
    assert ab + [c] == [a, b, c];
    assert [x] + [y] == [x, y];
  }

  lemma KeepStrippedAppend(xs: seq<string>, ys: seq<string>)
    ensures KeepStripped(xs + ys) == KeepStripped(xs) + KeepStripped(ys)
  {
    FilterMapAppend(xs, ys, StripPick);
  }

  lemma ExampleBlank()
    ensures KeepStripped([" \n"]) == []
  {
    assert AllWhitespace(" \n");
    FilterMapSingle(" \n", StripPick);
  }

  lemma ExampleLine(text: string, newline: string)
    requires |text| > 0 && IsStripped(text) && AllWhitespace(newline)
    ensures KeepStripped([text + newline]) == [text]
  {
    StripPadded("", text, newline);
    assert "" + text + newline == text + newline;
    FilterMapSingle(text + newline, StripPick);
  }

  lemma ExampleCross(w1: string, w2: string, t1: string, t2: string)
    ensures CrossProduct([w1, w2], [t1, t2]) == [w1 + "." + t1, w1 + "." + t2, w2 + "." + t1, w2 + "." + t2]
  {
    var W, T := [w1, w2], [t1, t2];
    assert Qualify(w1, T) == [w1 + "." + t1, w1 + "." + t2];
    assert Qualify(w2, T) == [w2 + "." + t1, w2 + "." + t2];
    assert W[1..][1..] == [];
    assert CrossProduct(W[1..], T) == Qualify(w2, T);
  }

  /** The candidate list of `main`: the kept literal domains, then the generated ones. */
  function Candidates(domainLines: seq<string>, wordLines: seq<string>, tldLines: seq<string>): (r: seq<string>)
    ensures |r| == |KeepStripped(domainLines)| + |KeepStripped(wordLines)| * |KeepStripped(tldLines)|
    ensures forall x :: x in r ==> |x| > 0 && IsStripped(x)
  {
    GenerateDomainsClean(wordLines, tldLines);
    KeepStripped(domainLines) + GenerateDomains(wordLines, tldLines)
  }

  /** Duplicates are neither removed nor merged: occurrence counts add up. */
  lemma CandidatesKeepDuplicates(domainLines: seq<string>, wordLines: seq<string>, tldLines: seq<string>)
    ensures multiset(Candidates(domainLines, wordLines, tldLines)) ==
            multiset(KeepStripped(domainLines)) + multiset(GenerateDomains(wordLines, tldLines))
  {
  }
}
