/**
 * The pieces of java.lang.String that the timecard scanner relies on:
 * `split(",")` with its removal of trailing empty strings, `trim().isEmpty()`
 * and `equalsIgnoreCase`.
 */
module JavaStrings {

  /** Number of commas in `s`. */
  function CommaCount(s: string): nat {
    multiset(s)[',']
  }

  /** Position of the first occurrence of `c` in `s`. */
  function IndexOf(s: string, c: char): (i: nat)
    requires c in s
    ensures i < |s| && s[i] == c
  {
    if s[0] == c then 0
    else
      assert s == [s[0]] + s[1..];
      IndexOf(s[1..], c) + 1
  }

  /** No occurrence of `c` comes before the one `IndexOf` finds. */
  lemma {:induction false} IndexOfFirst(s: string, c: char)
    requires c in s
    ensures c !in s[..IndexOf(s, c)]
  {
    if s[0] != c {
      assert s == [s[0]] + s[1..];
      var i := IndexOf(s[1..], c);
      IndexOfFirst(s[1..], c);
      assert s[..i + 1] == [s[0]] + s[1..][..i];
    }
  }

  /**
   * All pieces of `s` between commas, empty pieces included: the split before
   * `String.split` drops the trailing empty strings.
   */
  function Pieces(s: string): seq<string>
    decreases |s|
  {
    if ',' !in s then [s]
    else
      var i := IndexOf(s, ',');
      [s[..i]] + Pieces(s[i + 1..])
  }

  /** There is one piece more than there are commas, and no piece holds a comma. */
  lemma {:induction false} PiecesSpec(s: string)
    ensures |Pieces(s)| == CommaCount(s) + 1
    ensures forall k :: 0 <= k < |Pieces(s)| ==> ',' !in Pieces(s)[k]
    decreases |s|
  {
    if ',' !in s {
      assert multiset(s)[','] == 0;
    } else {
      var i := IndexOf(s, ',');
      IndexOfFirst(s, ',');
      assert s == s[..i] + [','] + s[i + 1..];
      assert multiset(s) == multiset(s[..i]) + multiset([',']) + multiset(s[i + 1..]);
      assert multiset(s[..i])[','] == 0;
      PiecesSpec(s[i + 1..]);
      var r := Pieces(s);
      assert r == [s[..i]] + Pieces(s[i + 1..]);
      forall k | 0 <= k < |r|
        ensures ',' !in r[k]
      {
        if k > 0 {
          assert r[k] == Pieces(s[i + 1..])[k - 1];
        }
      }
    }
  }

  /** The fields written out with a comma between each two of them. */
  function Join(fields: seq<string>): string
    requires |fields| >= 1
    decreases |fields|
  {
    if |fields| == 1 then fields[0] else fields[0] + "," + Join(fields[1..])
  }

  /** `fields` without its run of trailing empty strings. */
  function DropTrailingEmpty(fields: seq<string>): seq<string>
    decreases |fields|
  {
    if fields == [] then []
    else if fields[|fields| - 1] == "" then DropTrailingEmpty(fields[..|fields| - 1])
    else fields
  }

  /** What is dropped is a run of empty strings at the end, and what is kept does not end in one. */
  lemma {:induction false} DropTrailingEmptySpec(fields: seq<string>)
    ensures DropTrailingEmpty(fields) <= fields
    ensures forall k :: |DropTrailingEmpty(fields)| <= k < |fields| ==> fields[k] == ""
    ensures DropTrailingEmpty(fields) == [] || DropTrailingEmpty(fields)[|DropTrailingEmpty(fields)| - 1] != ""
    decreases |fields|
  {
    if fields != [] && fields[|fields| - 1] == "" {
      var init := fields[..|fields| - 1];
      DropTrailingEmptySpec(init);
      assert forall k :: 0 <= k < |init| ==> init[k] == fields[k];
    }
  }

  /**
   * `s.split(",")`: a string without a comma gives itself as the only field
   * (so `""` gives one empty field); otherwise the pieces between commas, with
   * the trailing empty ones removed.
   */
  function Split(s: string): seq<string> {
    if ',' !in s then [s] else DropTrailingEmpty(Pieces(s))
  }

  /**
   * A string without a comma is its own only field; otherwise the fields are
   * the pieces up to the run of trailing empty ones, the last field kept is
   * not empty, and no field holds a comma.
   */
  lemma SplitSpec(s: string)
    ensures ',' !in s ==> Split(s) == [s]
    ensures ',' in s ==> Split(s) <= Pieces(s) && (Split(s) == [] || Split(s)[|Split(s)| - 1] != "")
    ensures ',' in s ==> forall k :: |Split(s)| <= k < |Pieces(s)| ==> Pieces(s)[k] == ""
    ensures forall k :: 0 <= k < |Split(s)| ==> ',' !in Split(s)[k]
  {
    if ',' in s {
      PiecesSpec(s);
      DropTrailingEmptySpec(Pieces(s));
      var r := Split(s);
      assert forall k :: 0 <= k < |r| ==> r[k] == Pieces(s)[k];
    }
  }

  /** Joining a first field in front of further fields puts one comma between them. */
  lemma JoinCons(first: string, rest: seq<string>)
    requires |rest| >= 1
    ensures Join([first] + rest) == first + "," + Join(rest)
  {
    assert ([first] + rest)[1..] == rest;
  }

  /** A comma after comma-free text ends the first piece. */
  lemma PiecesAfterFirst(head: string, tail: string)
    requires ',' !in head
    ensures Pieces(head + "," + tail) == [head] + Pieces(tail)
  {
    var s := head + "," + tail;
    assert s[|head|] == ',' && s[..|head|] == head;
    var i := IndexOf(s, ',');
    IndexOfFirst(s, ',');
    assert i == |head|;
    assert s[i + 1..] == tail;
  }

  /** Joining the pieces of a string gives the string back. */
  lemma {:induction false} JoinPieces(s: string)
    ensures Join(Pieces(s)) == s
    decreases |s|
  {
    if ',' in s {
      var i := IndexOf(s, ',');
      IndexOfFirst(s, ',');
      var head, tail := s[..i], s[i + 1..];
      assert s == head + "," + tail by {
        assert s == s[..i] + [s[i]] + s[i + 1..];
      }
      PiecesAfterFirst(head, tail);
      JoinCons(head, Pieces(tail));
      JoinPieces(tail);
    }
  }

  /** Splitting comma-free fields that were joined gives the fields back. */
  lemma {:induction false} PiecesJoin(fields: seq<string>)
    requires |fields| >= 1
    requires forall k :: 0 <= k < |fields| ==> ',' !in fields[k]
    ensures Pieces(Join(fields)) == fields
    decreases |fields|
  {
    if |fields| > 1 {
      var rest := fields[1..];
      assert fields == [fields[0]] + rest;
      JoinCons(fields[0], rest);
      PiecesJoin(rest);
      PiecesAfterFirst(fields[0], Join(rest));
    }
  }

  /**
   * The split inverts the join for rows whose fields hold no comma and whose last
   * field is not empty (`String.split` would drop it otherwise).
   */
  lemma SplitJoin(fields: seq<string>)
    requires |fields| >= 1
    requires forall k :: 0 <= k < |fields| ==> ',' !in fields[k]
    requires |fields| == 1 || fields[|fields| - 1] != ""
    ensures Split(Join(fields)) == fields
  {
    if |fields| > 1 {
      assert Join(fields)[|fields[0]|] == ',';
      PiecesJoin(fields);
    }
  }

  /** A string of two or more fields split on commas keeps a non-empty last field. */
  lemma SplitLastFieldNonEmpty(s: string)
    requires |Split(s)| >= 2
    ensures Split(s)[|Split(s)| - 1] != ""
  {
    SplitSpec(s);
  }

  /** `Character` values that `String.trim` removes from both ends. */
  predicate IsTrimmed(c: char) {
    c <= ' '
  }

  /** `s` without its leading characters that trim removes. */
  function TrimStart(s: string): string
    decreases |s|
  {
    if s != [] && IsTrimmed(s[0]) then TrimStart(s[1..]) else s
  }

  /** `s` without its trailing characters that trim removes. */
  function TrimEnd(s: string): string
    decreases |s|
  {
    if s != [] && IsTrimmed(s[|s| - 1]) then TrimEnd(s[..|s| - 1]) else s
  }

  /** `String.trim()`: drops every character up to U+0020 from both ends. */
  function Trim(s: string): string {
    TrimEnd(TrimStart(s))
  }

  /** `s.trim().isEmpty()`. */
  predicate IsBlank(s: string) {
    Trim(s) == ""
  }

  /** A string is blank exactly when each of its characters is one that trim removes. */
  lemma {:induction false} BlankIff(s: string)
    ensures IsBlank(s) <==> forall k :: 0 <= k < |s| ==> IsTrimmed(s[k])
    decreases |s|
  {
    if s != [] {
      if IsTrimmed(s[0]) {
        BlankIff(s[1..]);
        assert forall k :: 1 <= k < |s| ==> s[k] == s[1..][k - 1];
      } else {
        assert TrimStart(s) == s;
        TrimEndKeeps(s);
      }
    }
  }

  /** Trimming the end of a string whose first character stays keeps that character. */
  lemma {:induction false} TrimEndKeeps(s: string)
    requires s != [] && !IsTrimmed(s[0])
    ensures TrimEnd(s) != []
    decreases |s|
  {
    if IsTrimmed(s[|s| - 1]) {
      TrimEndKeeps(s[..|s| - 1]);
    }
  }

  function ToUpperAscii(c: char): char {
    if 'a' <= c <= 'z' then (c as int - 32) as char else c
  }

  /** `String.equalsIgnoreCase`, for the ASCII case mapping. */
  predicate EqualsIgnoreCase(s: string, t: string) {
    |s| == |t| && forall k :: 0 <= k < |s| ==> ToUpperAscii(s[k]) == ToUpperAscii(t[k])
  }
}
