/**
 The step of `get_transcript` that turns the fetched segments into one text:
 the segments' texts joined by single spaces, as Python's `" ".join` does.
 The fetch itself is not part of this model; its result enters as the
 sequence of segment texts.
 */
module Transcript {

  /** `" ".join(parts)`: the parts in order with one space between neighbours. */
  function Join(parts: seq<string>): (r: string)
    ensures |parts| == 0 ==> r == ""
    ensures |parts| == 1 ==> r == parts[0]
  {
    if |parts| == 0 then ""
    else if |parts| == 1 then parts[0]
    else parts[0] + " " + Join(parts[1..])
  }

  /** The sum of the lengths of the parts. */
  function TotalLength(parts: seq<string>): nat
  {
    if parts == [] then 0 else |parts[0]| + TotalLength(parts[1..])
  }

  /** Where parts[i] begins in the joined text: each earlier part and its separating space. */
  function Offset(parts: seq<string>, i: nat): nat
    requires i <= |parts|
  {
    if i == 0 then 0 else |parts[0]| + 1 + Offset(parts[1..], i - 1)
  }

  predicate HasNoSpace(s: string) {
    forall k :: 0 <= k < |s| ==> s[k] != ' '
  }

  /** Index of the first space in s, or |s| when there is none. */
  function FirstSpace(s: string): (k: nat)
    ensures k <= |s| && (k < |s| ==> s[k] == ' ')
    ensures forall j :: 0 <= j < k ==> s[j] != ' '
  {
    if s == [] then 0
    else if s[0] == ' ' then 0
    else 1 + FirstSpace(s[1..])
  }

  /** Python's `s.split(" ")`: the pieces between single spaces, one more piece than there are spaces. */
  function SplitOnSpace(s: string): (r: seq<string>)
    decreases |s|
  {
    var k := FirstSpace(s);
    if k == |s| then [s] else [s[..k]] + SplitOnSpace(s[k + 1..])
  }

  /** The joined text is as long as all parts together plus one space between each pair. */
  lemma {:induction false} JoinLength(parts: seq<string>)
    requires |parts| > 0
    ensures |Join(parts)| == TotalLength(parts) + |parts| - 1
  {
    if |parts| > 1 {
      JoinLength(parts[1..]);
    }
  }

  /**
   Each part appears, in order, at its offset, and a single space follows every
   part but the last.
   */
  lemma {:induction false} JoinPlacesParts(parts: seq<string>, i: nat)
    requires i < |parts|
    ensures Offset(parts, i) + |parts[i]| <= |Join(parts)|
    ensures Join(parts)[Offset(parts, i)..Offset(parts, i) + |parts[i]|] == parts[i]
    ensures i + 1 < |parts| ==>
              Offset(parts, i) + |parts[i]| < |Join(parts)| && Join(parts)[Offset(parts, i) + |parts[i]|] == ' '
  {
    if |parts| > 1 {
      var rest := Join(parts[1..]);
      assert Join(parts) == parts[0] + " " + rest;
      if i > 0 {
        JoinPlacesParts(parts[1..], i - 1);
        var o := Offset(parts[1..], i - 1);
        assert Offset(parts, i) == |parts[0]| + 1 + o;
        assert Join(parts)[Offset(parts, i)..Offset(parts, i) + |parts[i]|] == rest[o..o + |parts[i]|];
      }
    }
  }

  /** The offset of part i is the length of the parts before it plus one separating space for each. */
  lemma {:induction false} OffsetIsPrefixSum(parts: seq<string>, i: nat)
    requires i <= |parts|
    ensures Offset(parts, i) == TotalLength(parts[..i]) + i
  {
    if i > 0 {
      OffsetIsPrefixSum(parts[1..], i - 1);
      assert parts[..i][1..] == parts[1..][..i - 1];
    }
  }

  /** The last part ends exactly where the joined text ends: nothing follows it. */
  lemma {:induction false} LastPartEndsJoin(parts: seq<string>)
    requires |parts| > 0
    ensures Offset(parts, |parts| - 1) + |parts[|parts| - 1]| == |Join(parts)|
  {
    if |parts| > 1 {
      var rest := parts[1..];
      LastPartEndsJoin(rest);
      assert rest[|rest| - 1] == parts[|parts| - 1];
      assert Offset(parts, |parts| - 1) == |parts[0]| + 1 + Offset(rest, |rest| - 1);
      assert |Join(parts)| == |parts[0]| + 1 + |Join(rest)|;
    }
  }

  /** Joining two non-empty lists is joining each and putting one space between. */
  lemma {:induction false} JoinAppend(a: seq<string>, b: seq<string>)
    requires |a| > 0 && |b| > 0
    ensures Join(a + b) == Join(a) + " " + Join(b)
  {
    if |a| == 1 {
      assert (a + b)[1..] == b;
    } else {
      assert (a + b)[1..] == a[1..] + b;
      JoinAppend(a[1..], b);
    }
  }

  /** When no segment text contains a space, splitting the joined text on spaces gives the segments back. */
  lemma {:induction false} SplitJoinRoundTrip(parts: seq<string>)
    requires |parts| > 0
    requires forall i :: 0 <= i < |parts| ==> HasNoSpace(parts[i])
    ensures SplitOnSpace(Join(parts)) == parts
  {
    var s := Join(parts);
    if |parts| == 1 {
      assert FirstSpace(s) == |s|;
    } else {
      var rest := Join(parts[1..]);
      assert s == parts[0] + " " + rest;
      var n := |parts[0]|;
      assert s[n] == ' ';
      assert FirstSpace(s) == n by {
        assert forall j :: 0 <= j < n ==> s[j] == parts[0][j];
      }
      assert s[..n] == parts[0];
      assert s[n + 1..] == rest;
      SplitJoinRoundTrip(parts[1..]);
    }
  }
}
