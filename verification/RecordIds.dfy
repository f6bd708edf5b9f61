/** internal/verify/merkle_verifier.go: reading the id back out of a printed primary key. */
module RecordIds {

  /** Where "id:" first starts at or after i, looking only where at least one more byte follows it. */
  function TagFrom(s: string, i: nat): int
    decreases |s| - i
  {
    if i >= |s| - 3 then -1
    else if TagAt(s, i) then i
    else TagFrom(s, i + 1)
  }

  predicate TagAt(s: string, i: int) {
    0 <= i <= |s| - 3 && s[i] == 'i' && s[i + 1] == 'd' && s[i + 2] == ':'
  }

  lemma TagIsText(s: string, i: nat)
    requires i + 3 <= |s|
    ensures TagAt(s, i) <==> s[i..i + 3] == "id:"
  {
    var t := s[i..i + 3];
    assert t == [s[i], s[i + 1], s[i + 2]];
    assert "id:" == ['i', 'd', ':'];
  }

  predicate EndsValue(c: char) {
    c == ']' || c == ' '
  }

  function ValueEnd(s: string, i: nat): (e: nat)
    requires i <= |s|
    ensures i <= e <= |s|
    ensures forall j :: i <= j < e ==> !EndsValue(s[j])
    ensures e < |s| ==> EndsValue(s[e])
    decreases |s| - i
  {
    if i < |s| && !EndsValue(s[i]) then ValueEnd(s, i + 1) else i
  }

  /** The text after the first tag, up to a space or a closing bracket. */
  function FirstTagValue(s: string): string
    requires TagFrom(s, 0) >= 0
  {
    TagIsInside(s, 0);
    var start := TagFrom(s, 0) + 3;
    s[start..ValueEnd(s, start)]
  }

  function ExtractID(recordID: string): string {
    if |recordID| > 7 && recordID[..4] == "map[" && TagFrom(recordID, 0) >= 0 then FirstTagValue(recordID)
    else recordID
  }

  lemma {:induction false} TagIsInside(s: string, i: nat)
    ensures TagFrom(s, i) >= 0 ==> i <= TagFrom(s, i) < |s| - 3
    decreases |s| - i
  {
    if i < |s| - 3 && !TagAt(s, i) {
      TagIsInside(s, i + 1);
    }
  }

  method ExtractIDFromRecordID(recordID: string) returns (id: string)
    ensures id == ExtractID(recordID)
  {
    if |recordID| > 7 && recordID[..4] == "map[" {
      var idStart := -1;
      var i := 0;
      while i < |recordID| - 3
        invariant 0 <= i <= |recordID| - 3 && idStart == -1
        invariant TagFrom(recordID, 0) == TagFrom(recordID, i)
      {
        TagIsText(recordID, i);
        if recordID[i..i + 3] == "id:" {
          idStart := i + 3;
          break;
        }
        i := i + 1;
      }
      if idStart > 0 {
        var idEnd := idStart;
        while idEnd < |recordID| && recordID[idEnd] != ']' && recordID[idEnd] != ' '
          invariant idStart <= idEnd <= |recordID|
          invariant ValueEnd(recordID, idStart) == ValueEnd(recordID, idEnd)
        {
          idEnd := idEnd + 1;
        }
        return recordID[idStart..idEnd];
      }
    }
    return recordID;
  }

  // ---------------------------------------------------------------- the printer

  /** A primary key, columns in the order `fmt` prints map keys. */
  datatype Column = Column(name: string, value: string)

  function PrintColumns(columns: seq<Column>): string {
    if columns == [] then ""
    else if |columns| == 1 then columns[0].name + ":" + columns[0].value
    else columns[0].name + ":" + columns[0].value + " " + PrintColumns(columns[1..])
  }

  /** What `fmt.Sprintf("%v", primaryKey)` prints. */
  function PrintKey(columns: seq<Column>): string {
    "map[" + PrintColumns(columns) + "]"
  }

  /** The text of the columns printed before another column. */
  function PrintBefore(columns: seq<Column>): string {
    if columns == [] then ""
    else columns[0].name + ":" + columns[0].value + " " + PrintBefore(columns[1..])
  }

  lemma {:induction false} PrintSplits(before: seq<Column>, column: Column, after: seq<Column>)
    ensures PrintColumns(before + [column] + after) ==
            PrintBefore(before) + (column.name + ":" + column.value)
            + (if after == [] then "" else " " + PrintColumns(after))
  {
    var all := before + [column] + after;
    if before == [] {
      assert all[0] == column && all[1..] == after;
    } else {
      assert all[0] == before[0] && all[1..] == before[1..] + [column] + after;
      PrintSplits(before[1..], column, after);
    }
  }

  lemma {:induction false} TagFound(s: string, i: nat, k: nat)
    requires i <= k < |s| - 3 && TagAt(s, k)
    requires forall j :: i <= j < k ==> !TagAt(s, j)
    ensures TagFrom(s, i) == k
    decreases k - i
  {
    if i < k {
      TagFound(s, i + 1, k);
    }
  }

  lemma {:induction false} NoTagBefore(s: string, i: nat, j: nat)
    requires i <= j < |s| - 3 && (TagFrom(s, i) < 0 || j < TagFrom(s, i))
    ensures !TagAt(s, j)
    decreases j - i
  {
    if i < j {
      NoTagBefore(s, i + 1, j);
    }
  }

  /** Text appended after a bracket or a space makes no tag start earlier. */
  lemma TagsOfFront(front: string, tail: string, j: nat)
    requires j < |front| && front[|front| - 1] in "[ "
    requires TagFrom(front, 0) < 0 || j < TagFrom(front, 0)
    ensures !TagAt(front + tail, j)
  {
    var s := front + tail;
    assert s[|front| - 1] == front[|front| - 1];
    TagIsInside(front, 0);
    if j < |front| - 3 {
      NoTagBefore(front, 0, j);
      assert s[j] == front[j] && s[j + 1] == front[j + 1] && s[j + 2] == front[j + 2];
    }
  }

  /** The tag of the id column is the first one when none was printed before it. */
  lemma FirstTag(front: string, rest: string)
    requires front != [] && front[|front| - 1] in "[ "
    requires TagFrom(front, 0) < 0 && rest != []
    ensures TagFrom(front + "id:" + rest, 0) == |front|
  {
    var s, k := front + "id:" + rest, |front|;
    assert s[k] == "id:"[0] && s[k + 1] == "id:"[1] && s[k + 2] == "id:"[2];
    assert s == front + ("id:" + rest);
    forall j | 0 <= j < k ensures !TagAt(s, j) {
      TagsOfFront(front, "id:" + rest, j);
    }
    TagFound(s, 0, k);
  }

  /** A tag printed earlier is the first one, and its value ends before the id column. */
  lemma EarlierTagWins(front: string, tail: string)
    requires TagFrom(front, 0) >= 0 && front != [] && front[|front| - 1] == ' '
    ensures TagFrom(front + tail, 0) == TagFrom(front, 0) && FirstTagValue(front + tail) == FirstTagValue(front)
  {
    var s, k := front + tail, TagFrom(front, 0);
    TagIsInside(front, 0);
    TagIsThere(front, 0);
    assert s[k] == front[k] && s[k + 1] == front[k + 1] && s[k + 2] == front[k + 2];
    forall j | 0 <= j < k ensures !TagAt(s, j) {
      TagsOfFront(front, tail, j);
    }
    TagFound(s, 0, k);
    var e := ValueEnd(front, k + 3);
    assert e < |front|;
    assert forall i :: 0 <= i < |front| ==> s[i] == front[i];
    assert ValueEnd(s, k + 3) == e;
  }

  lemma {:induction false} TagIsThere(s: string, i: nat)
    requires TagFrom(s, i) >= 0
    ensures TagAt(s, TagFrom(s, i))
    decreases |s| - i
  {
    if !TagAt(s, i) {
      TagIsThere(s, i + 1);
    }
  }

  ghost predicate IsPlain(value: string) {
    forall i :: 0 <= i < |value| ==> !EndsValue(value[i])
  }

  lemma ValueEndsAt(s: string, start: nat, value: string)
    requires start + |value| < |s| && s[start..start + |value|] == value && EndsValue(s[start + |value|])
    ensures s[start..ValueEnd(s, start)] == value <==> IsPlain(value)
  {
    var e := ValueEnd(s, start);
    forall i | 0 <= i < |value| ensures s[start + i] == value[i] {
      assert s[start..start + |value|][i] == value[i];
    }
    if IsPlain(value) {
      assert e == start + |value|;
    } else {
      var i :| 0 <= i < |value| && EndsValue(value[i]);
      assert e <= start + i;
    }
  }

  lemma Regroup(a: string, b: string, c: string, d: string, e: string, f: string)
    ensures a + (b + (c + d) + e) + f == (a + b) + c + (d + (e + f))
  {
  }

  lemma PrintedKeyParts(before: seq<Column>, value: string, after: seq<Column>) returns (front: string, rest: string)
    ensures front == "map[" + PrintBefore(before) && front[|front| - 1] in "[ "
    ensures TagFrom(front, 0) >= 0 ==> front[|front| - 1] == ' '
    ensures |rest| > |value| && rest[..|value|] == value && EndsValue(rest[|value|])
    ensures PrintKey(before + [Column("id", value)] + after) == front + "id:" + rest
  {
    var middle := if after == [] then "" else " " + PrintColumns(after);
    front := "map[" + PrintBefore(before);
    rest := value + (middle + "]");
    BeforeEndsWithSpace(before);
    if before == [] {
      assert front == ['m', 'a', 'p', '['];
    }
    PrintSplits(before, Column("id", value), after);
    assert "id" + ":" == "id:";
    Regroup("map[", PrintBefore(before), "id:", value, middle, "]");
    assert rest[|value|] == (middle + "]")[0];
  }

  lemma {:induction false} BeforeEndsWithSpace(columns: seq<Column>)
    ensures columns != [] ==>
      PrintBefore(columns) != [] && PrintBefore(columns)[|PrintBefore(columns)| - 1] == ' '
  {
    if columns != [] {
      BeforeEndsWithSpace(columns[1..]);
    }
  }

  lemma ReadsValue(front: string, rest: string, value: string)
    requires |front| >= 4 && front[..4] == "map[" && TagFrom(front + "id:" + rest, 0) == |front|
    requires |rest| > |value| && rest[..|value|] == value && EndsValue(rest[|value|])
    ensures ExtractID(front + "id:" + rest) == value <==> IsPlain(value)
  {
    var s, start := front + "id:" + rest, |front| + 3;
    assert |s| == start + |rest| && s[start..] == rest;
    assert s[..4] == front[..4];
    assert s[start..start + |value|] == rest[..|value|];
    assert s[start + |value|] == rest[|value|];
    ValueEndsAt(s, start, value);
  }

  lemma ReadsEarlierTag(front: string, tail: string)
    requires |front| >= 4 && front[..4] == "map[" && TagFrom(front, 0) >= 0 && front[|front| - 1] == ' '
    requires |tail| >= 3
    ensures ExtractID(front + tail) == FirstTagValue(front)
  {
    EarlierTagWins(front, tail);
    TagIsInside(front, 0);
    assert (front + tail)[..4] == front[..4];
  }

  /** What is read back, decided by the text before the id column. */
  ghost predicate ComesBack(front: string, value: string) {
    if TagFrom(front, 0) >= 0 then FirstTagValue(front) == value else IsPlain(value)
  }

  lemma ReadsKeyAfterTag(front: string, rest: string, value: string)
    requires |front| >= 4 && front[..4] == "map[" && TagFrom(front, 0) >= 0 && front[|front| - 1] == ' '
    ensures ExtractID(front + "id:" + rest) == value <==> ComesBack(front, value)
  {
    ReadsEarlierTag(front, "id:" + rest);
    assert front + ("id:" + rest) == front + "id:" + rest;
  }

  lemma ReadsKeyAtTag(front: string, rest: string, value: string)
    requires |front| >= 4 && front[..4] == "map[" && TagFrom(front, 0) < 0 && front[|front| - 1] in "[ "
    requires |rest| > |value| && rest[..|value|] == value && EndsValue(rest[|value|])
    ensures ExtractID(front + "id:" + rest) == value <==> ComesBack(front, value)
  {
    FirstTag(front, rest);
    ReadsValue(front, rest, value);
  }

  lemma ReadsKey(front: string, rest: string, value: string)
    requires |front| >= 4 && front[..4] == "map[" && front[|front| - 1] in "[ "
    requires TagFrom(front, 0) >= 0 ==> front[|front| - 1] == ' '
    requires |rest| > |value| && rest[..|value|] == value && EndsValue(rest[|value|])
    ensures ExtractID(front + "id:" + rest) == value <==> ComesBack(front, value)
  {
    if TagFrom(front, 0) >= 0 {
      ReadsKeyAfterTag(front, rest, value);
    } else {
      ReadsKeyAtTag(front, rest, value);
    }
  }

  /** The parser undoes the printer exactly when: if the text printed before the id column has no
      "id:" in it, the value has no space and no closing bracket; otherwise, what follows the first
      "id:" printed there happens to be the value. */
  lemma ParserUndoesPrinter(before: seq<Column>, value: string, after: seq<Column>)
    ensures ExtractID(PrintKey(before + [Column("id", value)] + after)) == value <==>
            ComesBack("map[" + PrintBefore(before), value)
  {
    var front, rest := PrintedKeyParts(before, value, after);
    ReadsKey(front, rest, value);
  }

  /** The text is a printed map. */
  predicate IsPrinted(s: string) {
    |s| >= 4 && s[..4] == "map["
  }

  /** The key of a row identified by its id column alone. */
  function IdKey(id: string): string {
    PrintKey([Column("id", id)])
  }

  /** In this usual case an id comes back exactly if it is plain. */
  lemma IdKeyReadsBack(id: string)
    ensures ExtractID(IdKey(id)) == id <==> IsPlain(id)
    ensures IsPrinted(IdKey(id))
  {
    assert "map[" + PrintBefore([]) == ['m', 'a', 'p', '['];
    ParserUndoesPrinter([], id, []);
    assert TagFrom(['m', 'a', 'p', '['], 0) < 0;
    assert [] + [Column("id", id)] + [] == [Column("id", id)];
  }

  /** A key it fails on: the name of an earlier column ends in "id". */
  lemma EarlierTagMisleads()
    ensures ExtractID("map[grid:9 id:5]") == "9"
  {
    var s := "map[grid:9 id:5]";
    TagFound(s, 0, 6);
    ValueEndsAt(s, 9, "9") by { assert s[9..10] == "9"; }
    assert IsPlain("9");
  }

  /** Anything that is not a printed map is its own id. */
  lemma OtherTextUnchanged(recordID: string)
    requires !IsPrinted(recordID)
    ensures ExtractID(recordID) == recordID
  {
    if |recordID| > 7 && recordID[..4] == "map[" {
      assert false;
    }
  }

  /** At i the text has "id:" and at least one more byte. */
  ghost predicate HasTag(s: string, i: nat) {
    i + 3 < |s| && s[i..i + 3] == "id:"
  }

  lemma HasTagIff(s: string, i: nat)
    ensures HasTag(s, i) <==> TagAt(s, i) && i < |s| - 3
  {
    if i + 3 <= |s| {
      TagIsText(s, i);
    }
  }

  /** A printed map without an "id:", or with one at the very end only, is its own id as well. */
  lemma NoTagIsOwnId(s: string)
    requires forall i: nat :: !HasTag(s, i)
    ensures ExtractID(s) == s
  {
    if TagFrom(s, 0) >= 0 {
      TagIsInside(s, 0);
      TagIsThere(s, 0);
      HasTagIff(s, TagFrom(s, 0));
    }
  }

  lemma PrintedTagIsLate(s: string, i: nat)
    requires IsPrinted(s) && HasTag(s, i)
    ensures i >= 4
  {
    var t := s[i..i + 3];
    assert s[..4][0] == 'm' && s[..4][1] == 'a' && s[..4][2] == 'p' && s[..4][3] == '[';
    assert t[0] == s[i] == 'i';
  }

  /** Otherwise the id is what follows the first "id:", up to the next space or bracket or the end. */
  lemma FirstTagIsId(s: string, i: nat)
    requires IsPrinted(s) && HasTag(s, i) && forall j: nat :: j < i ==> !HasTag(s, j)
    ensures var id := ExtractID(s);
      && IsPlain(id) && i + 3 + |id| <= |s| && s[i + 3..i + 3 + |id|] == id
      && (i + 3 + |id| == |s| || s[i + 3 + |id|] == ' ' || s[i + 3 + |id|] == ']')
  {
    PrintedTagIsLate(s, i);
    HasTagIff(s, i);
    forall j | 0 <= j < i ensures !TagAt(s, j) {
      HasTagIff(s, j);
    }
    TagFound(s, 0, i);
    var id := s[i + 3..ValueEnd(s, i + 3)];
    forall k | 0 <= k < |id| ensures !EndsValue(id[k]) {
      assert id[k] == s[i + 3 + k];
    }
  }
}
