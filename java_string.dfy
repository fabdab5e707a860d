/**
 * The parts of `java.lang.String` and `java.util` the store and the
 * dispatcher rely on: `startsWith`, `contains`, `split(" ")`, the order of
 * `compareTo`, a `TreeSet<String>` (a strictly sorted sequence), and the text
 * that `toString()` followed by `replaceAll("[\\[\\]\\s]", "")` produces.
 */
module JavaString {

  predicate StartsWith(s: string, prefix: string) {
    |prefix| <= |s| && s[..|prefix|] == prefix
  }

  /** `s.contains(sub)`: sub starts at some position of s. */
  predicate Contains(s: string, sub: string)
    decreases |s|
  {
    StartsWith(s, sub) || (|s| > 0 && Contains(s[1..], sub))
  }

  /** sub occurs in s starting at index i. */
  predicate OccursAt(s: string, sub: string, i: int) {
    0 <= i && i + |sub| <= |s| && s[i..i + |sub|] == sub
  }

  /** `contains` holds exactly when sub occurs at some index of s. */
  lemma {:induction false} ContainsOccurrence(s: string, sub: string)
    ensures Contains(s, sub) <==> exists i :: OccursAt(s, sub, i)
    decreases |s|
  {
    if StartsWith(s, sub) {
      assert OccursAt(s, sub, 0);
    } else if |s| > 0 {
      ContainsOccurrence(s[1..], sub);
      if Contains(s[1..], sub) {
        var j :| OccursAt(s[1..], sub, j);
        assert s[1..][j..j + |sub|] == s[j + 1..j + 1 + |sub|];
        assert OccursAt(s, sub, j + 1);
      }
      if i :| OccursAt(s, sub, i) {
        assert i != 0;
        assert s[1..][i - 1..i - 1 + |sub|] == s[i..i + |sub|];
        assert OccursAt(s[1..], sub, i - 1);
      }
    }
  }

  // ---------------------------------------------------------------------------
  // Splitting and joining on a separator

  /** Joins parts with sep between consecutive parts. */
  function Join(parts: seq<string>, sep: string): string
  {
    if |parts| == 0 then ""
    else if |parts| == 1 then parts[0]
    else parts[0] + sep + Join(parts[1..], sep)
  }

  /** Every piece between the spaces of s, empty pieces included. */
  function SplitOnSpace(s: string): (parts: seq<string>)
    ensures |parts| >= 1
    decreases |s|
  {
    if |s| == 0 then [""]
    else
      var rest := SplitOnSpace(s[1..]);
      if s[0] == ' ' then [""] + rest else [[s[0]] + rest[0]] + rest[1..]
  }

  function DropTrailingEmpty(parts: seq<string>): seq<string>
  {
    if |parts| > 0 && parts[|parts| - 1] == "" then DropTrailingEmpty(parts[..|parts| - 1]) else parts
  }

  /**
   * `s.split(" ")`: without any space the whole string is the one token;
   * otherwise every piece between spaces, keeping empty pieces between
   * consecutive spaces and dropping the empty pieces at the end.
   */
  function JavaSplit(s: string): seq<string>
  {
    if ' ' !in s then [s] else DropTrailingEmpty(SplitOnSpace(s))
  }

  /** Splitting loses nothing: joining the pieces with spaces gives s back. */
  lemma {:induction false} JoinSplitOnSpace(s: string)
    ensures Join(SplitOnSpace(s), " ") == s
    ensures forall k :: 0 <= k < |SplitOnSpace(s)| ==> ' ' !in SplitOnSpace(s)[k]
    decreases |s|
  {
    if |s| > 0 {
      JoinSplitOnSpace(s[1..]);
      var rest := SplitOnSpace(s[1..]);
      if s[0] == ' ' {
        assert ([""] + rest)[1..] == rest;
      } else {
        var parts := [[s[0]] + rest[0]] + rest[1..];
        assert parts[1..] == rest[1..];
        if |rest| > 1 {
          assert Join(rest, " ") == rest[0] + " " + Join(rest[1..], " ");
        }
        assert s == [s[0]] + s[1..];
      }
    }
  }

  lemma {:induction false} SplitOnSpaceOfToken(a: string, rest: string)
    requires ' ' !in a
    ensures SplitOnSpace(a) == [a]
    ensures SplitOnSpace(a + " " + rest) == [a] + SplitOnSpace(rest)
    decreases |a|
  {
    if |a| == 0 {
      assert (a + " " + rest)[1..] == rest;
    } else {
      SplitOnSpaceOfToken(a[1..], rest);
      assert (a + " " + rest)[1..] == a[1..] + " " + rest;
      assert [a[0]] + a[1..] == a;
    }
  }

  /** Splitting a space-joined list of space-free tokens gives the tokens back. */
  lemma {:induction false} SplitOnSpaceOfJoin(tokens: seq<string>)
    requires |tokens| >= 1
    requires forall k :: 0 <= k < |tokens| ==> ' ' !in tokens[k]
    ensures SplitOnSpace(Join(tokens, " ")) == tokens
  {
    if |tokens| == 1 {
      SplitOnSpaceOfToken(tokens[0], "");
    } else {
      SplitOnSpaceOfJoin(tokens[1..]);
      SplitOnSpaceOfToken(tokens[0], Join(tokens[1..], " "));
      assert [tokens[0]] + tokens[1..] == tokens;
    }
  }

  /** Dropping trailing empty pieces keeps a prefix, drops only empty pieces, and ends on a non-empty one. */
  lemma {:induction false} DropTrailingEmptyPrefix(parts: seq<string>)
    ensures var r := DropTrailingEmpty(parts);
      && |r| <= |parts| && r == parts[..|r|]
      && (forall k :: |r| <= k < |parts| ==> parts[k] == "")
      && (|r| > 0 ==> r[|r| - 1] != "")
  {
    if |parts| > 0 && parts[|parts| - 1] == "" {
      DropTrailingEmptyPrefix(parts[..|parts| - 1]);
    }
  }

  /**
   * What `split(" ")` returns for a string with a space: the pieces between
   * spaces up to the last non-empty one, interior empty pieces included.
   */
  lemma JavaSplitPieces(s: string)
    requires ' ' in s
    ensures var r := JavaSplit(s); var p := SplitOnSpace(s);
      && |r| <= |p| && r == p[..|r|]
      && (forall k :: |r| <= k < |p| ==> p[k] == "")
      && (|r| > 0 ==> r[|r| - 1] != "")
  {
    DropTrailingEmptyPrefix(SplitOnSpace(s));
  }

  /** Two or more tokens joined by spaces hold a space: the one after the first token. */
  lemma JoinHasSpace(tokens: seq<string>)
    requires |tokens| >= 2
    ensures ' ' in Join(tokens, " ")
  {
    var j := Join(tokens, " ");
    assert j == tokens[0] + " " + Join(tokens[1..], " ");
    assert j[|tokens[0]|] == ' ';
  }

  /** `split(" ")` of space-joined space-free tokens, the last one non-empty, gives the tokens back. */
  lemma JavaSplitOfJoin(tokens: seq<string>)
    requires |tokens| >= 2
    requires forall k :: 0 <= k < |tokens| ==> ' ' !in tokens[k]
    requires tokens[|tokens| - 1] != ""
    ensures JavaSplit(Join(tokens, " ")) == tokens
  {
    JoinHasSpace(tokens);
    SplitOnSpaceOfJoin(tokens);
    assert DropTrailingEmpty(tokens) == tokens;
  }

  /** Every character of a piece between spaces is a character of s. */
  lemma {:induction false} SplitOnSpaceChars(s: string)
    ensures forall k, c :: 0 <= k < |SplitOnSpace(s)| && c in SplitOnSpace(s)[k] ==> c in s
    decreases |s|
  {
    if |s| > 0 {
      SplitOnSpaceChars(s[1..]);
      var rest := SplitOnSpace(s[1..]);
      var parts := SplitOnSpace(s);
      forall k, c | 0 <= k < |parts| && c in parts[k] ensures c in s {
        if s[0] == ' ' {
          assert parts[k] == ([""] + rest)[k];
          if k > 0 {
            assert parts[k] == rest[k - 1];
          }
        } else if k == 0 {
          assert parts[0] == [s[0]] + rest[0];
          if c != s[0] {
            assert c in rest[0];
          }
        } else {
          assert parts[k] == rest[k];
        }
        assert s == [s[0]] + s[1..];
      }
    }
  }

  /**
   * The tokens of `split(" ")` on a string with a space: none holds a space,
   * each is made of characters of s, and the last one is not empty.
   */
  lemma JavaSplitTokens(s: string)
    requires ' ' in s
    ensures var r := JavaSplit(s);
      && (forall k :: 0 <= k < |r| ==> ' ' !in r[k])
      && (forall k, c :: 0 <= k < |r| && c in r[k] ==> c in s)
      && (|r| > 0 ==> r[|r| - 1] != "")
  {
    var p := SplitOnSpace(s);
    JavaSplitPieces(s);
    JoinSplitOnSpace(s);
    SplitOnSpaceChars(s);
    var r := JavaSplit(s);
    assert forall k :: 0 <= k < |r| ==> r[k] == p[k];
  }

  /** Joining two or more tokens with spaces starts with the first two joined by a space. */
  lemma JoinHead(t: seq<string>)
    requires |t| >= 3
    ensures Join(t, " ") == (t[0] + " " + t[1]) + (" " + Join(t[2..], " "))
  {
    assert t[1..][1..] == t[2..];
  }

  lemma StartsWithConcat(a: string, b: string)
    ensures StartsWith(a + b, a)
  {
    assert (a + b)[..|a|] == a;
  }

  // ---------------------------------------------------------------------------
  // String order (`compareTo`) and TreeSet<String>

  /** `a.compareTo(b) < 0`: the first differing character decides, else the shorter string is smaller. */
  predicate Less(a: string, b: string)
    decreases |a|
  {
    if |a| == 0 then |b| > 0
    else if |b| == 0 then false
    else if a[0] != b[0] then a[0] < b[0]
    else Less(a[1..], b[1..])
  }

  lemma {:induction false} LessIrreflexive(a: string)
    ensures !Less(a, a)
    decreases |a|
  {
    if |a| > 0 {
      LessIrreflexive(a[1..]);
    }
  }

  lemma {:induction false} LessTransitive(a: string, b: string, c: string)
    requires Less(a, b) && Less(b, c)
    ensures Less(a, c)
    decreases |a|
  {
    if |a| > 0 && |b| > 0 && |c| > 0 && a[0] == b[0] && b[0] == c[0] {
      LessTransitive(a[1..], b[1..], c[1..]);
    }
  }

  /** Any two different strings are ordered one way: `compareTo` is a total order. */
  lemma {:induction false} LessTotal(a: string, b: string)
    ensures a == b || Less(a, b) || Less(b, a)
    decreases |a|
  {
    if |a| > 0 && |b| > 0 && a[0] == b[0] {
      LessTotal(a[1..], b[1..]);
      if a[1..] == b[1..] {
        assert a == [a[0]] + a[1..] && b == [b[0]] + b[1..];
      }
    }
  }

  lemma LessAsymmetric(a: string, b: string)
    requires Less(a, b)
    ensures !Less(b, a)
  {
    if Less(b, a) {
      LessTransitive(a, b, a);
      LessIrreflexive(a);
    }
  }

  /** The iteration order of a TreeSet<String>: ascending, without duplicates. */
  predicate StrictlySorted(s: seq<string>) {
    forall i, j :: 0 <= i < j < |s| ==> Less(s[i], s[j])
  }

  /** `TreeSet.add(x)`: the set gains x and stays in ascending order. */
  function Insert(s: seq<string>, x: string): (r: seq<string>)
    requires StrictlySorted(s)
    ensures StrictlySorted(r)
    ensures forall y :: y in r <==> y in s || y == x
  {
    if |s| == 0 then [x]
    else if x == s[0] then s
    else if Less(x, s[0]) then
      assert forall j :: 0 < j < |s| ==> Less(x, s[j]) by {
        forall j | 0 < j < |s| {
          LessTransitive(x, s[0], s[j]);
        }
      }
      [x] + s
    else
      LessTotal(x, s[0]);
      var tail := Insert(s[1..], x);
      assert forall y :: y in tail ==> Less(s[0], y) by {
        forall y | y in tail ensures Less(s[0], y) {
          if y != x {
            var j :| 1 <= j < |s| && s[j] == y;
          }
        }
      }
      [s[0]] + tail
  }

  lemma NoElementsEmpty(s: seq<string>)
    ensures (forall y :: y !in s) ==> s == []
  {
    if |s| > 0 {
      assert s[0] in s;
    }
  }

  /** A TreeSet has one iteration order: two ascending duplicate-free listings of one set are equal. */
  lemma {:induction false} SortedListingUnique(a: seq<string>, b: seq<string>)
    requires StrictlySorted(a) && StrictlySorted(b)
    requires forall y :: y in a <==> y in b
    ensures a == b
  {
    if |a| > 0 {
      assert a[0] in b;
      assert b[0] in a;
      if a[0] != b[0] {
        var i :| 0 < i < |a| && a[i] == b[0];
        var j :| 0 < j < |b| && b[j] == a[0];
        LessAsymmetric(a[0], a[i]);
      }
      forall y
        ensures y in a[1..] <==> y in b[1..]
      {
        if y in a[1..] {
          var i :| 0 < i < |a| && a[i] == y;
          LessIrreflexive(y);
          assert y != a[0];
          assert y in b;
        }
        if y in b[1..] {
          var j :| 0 < j < |b| && b[j] == y;
          LessIrreflexive(y);
          assert y != b[0];
          assert y in a;
        }
      }
      SortedListingUnique(a[1..], b[1..]);
      assert a == [a[0]] + a[1..] && b == [b[0]] + b[1..];
    } else {
      assert forall y :: y !in b;
      NoElementsEmpty(b);
    }
  }

  // ---------------------------------------------------------------------------
  // Rendering a collection: toString() and replaceAll("[\\[\\]\\s]", "")

  /** The characters of the class `[\[\]\s]`: brackets and Java regex whitespace. */
  predicate IsStripped(c: char) {
    c == '[' || c == ']' || c == ' ' || c == '\t' || c == '\n' || c == '\U{000B}' || c == '\U{000C}' || c == '\r'
  }

  /** `replaceAll("[\\[\\]\\s]", "")`. */
  function Strip(s: string): string
  {
    if |s| == 0 then "" else (if IsStripped(s[0]) then "" else [s[0]]) + Strip(s[1..])
  }

  /** `AbstractCollection.toString()`: the elements between brackets, separated by ", ". */
  function CollectionToString(names: seq<string>): string
  {
    "[" + Join(names, ", ") + "]"
  }

  lemma {:induction false} StripConcat(a: string, b: string)
    ensures Strip(a + b) == Strip(a) + Strip(b)
    decreases |a|
  {
    if |a| > 0 {
      StripConcat(a[1..], b);
      assert (a + b)[0] == a[0];
      assert (a + b)[1..] == a[1..] + b;
    } else {
      assert a + b == b;
    }
  }

  lemma {:induction false} StripPlain(s: string)
    requires forall i :: 0 <= i < |s| ==> !IsStripped(s[i])
    ensures Strip(s) == s
    decreases |s|
  {
    if |s| > 0 {
      StripPlain(s[1..]);
      assert s == [s[0]] + s[1..];
    }
  }

  /**
   * Names free of brackets and whitespace render as plain comma-separated
   * text; no names render as the empty string.
   */
  lemma {:induction false} StripCollectionToString(names: seq<string>)
    requires forall k, i :: 0 <= k < |names| && 0 <= i < |names[k]| ==> !IsStripped(names[k][i])
    ensures Strip(CollectionToString(names)) == Join(names, ",")
  {
    StripConcat("[", Join(names, ", ") + "]");
    StripConcat(Join(names, ", "), "]");
    assert "[" + Join(names, ", ") + "]" == "[" + (Join(names, ", ") + "]");
    StripJoin(names);
  }

  lemma {:induction false} StripJoin(names: seq<string>)
    requires forall k, i :: 0 <= k < |names| && 0 <= i < |names[k]| ==> !IsStripped(names[k][i])
    ensures Strip(Join(names, ", ")) == Join(names, ",")
  {
    if |names| == 1 {
      StripPlain(names[0]);
    } else if |names| > 1 {
      StripJoin(names[1..]);
      StripPlain(names[0]);
      StripConcat(names[0], ", " + Join(names[1..], ", "));
      StripConcat(", ", Join(names[1..], ", "));
      assert names[0] + ", " + Join(names[1..], ", ") == names[0] + (", " + Join(names[1..], ", "));
      assert Strip(", ") == ",";
    }
  }
}
