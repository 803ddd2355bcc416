/**
 * Rendering a path for display: the values in order with " -> " between
 * neighbours, as the string builder of `getDegreeString` writes them.
 */
module Render {

  /** The separator the path is rendered with. */
  const Arrow: string := " -> "

  /** Total length of the parts. */
  function TotalLength(parts: seq<string>): nat
  {
    if parts == [] then 0 else TotalLength(parts[..|parts| - 1]) + |parts[|parts| - 1]|
  }

  /**
   * The parts in order with `Arrow` between neighbours; empty for no parts. Its
   * length is the parts' total plus one separator (four characters) per gap.
   */
  function Join(parts: seq<string>): (r: string)
    ensures parts != [] ==> |r| == TotalLength(parts) + |Arrow| * (|parts| - 1)
  {
    if |parts| == 0 then ""
    else if |parts| == 1 then parts[0]
    else Join(parts[..|parts| - 1]) + Arrow + parts[|parts| - 1]
  }

  /** Joining can equally be read from the front: the first part, a separator, the rest joined. */
  lemma {:induction false} JoinFront(parts: seq<string>)
    requires |parts| >= 2
    ensures Join(parts) == parts[0] + Arrow + Join(parts[1..])
    decreases |parts|
  {
    if |parts| > 2 {
      var init := parts[..|parts| - 1];
      JoinFront(init);
      assert init[1..] == parts[1..][..|parts| - 2];
    }
  }

  predicate HasArrowAt(s: string, m: nat)
  {
    m + |Arrow| <= |s| && s[m..m + |Arrow|] == Arrow
  }

  /** Where the first separator at or after `i` starts, or `|s|` when there is none. */
  function FindArrow(s: string, i: nat): (k: nat)
    requires i <= |s|
    ensures i <= k <= |s|
    ensures k < |s| ==> HasArrowAt(s, k)
    ensures forall m :: i <= m < k ==> !HasArrowAt(s, m)
    decreases |s| - i
  {
    if i == |s| then |s|
    else if HasArrowAt(s, i) then i
    else FindArrow(s, i + 1)
  }

  /** Cuts a rendering at each separator, left to right. */
  function Split(s: string): seq<string>
    decreases |s|
  {
    var k := FindArrow(s, 0);
    if k == |s| then [s] else [s[..k]] + Split(s[k + |Arrow|..])
  }

  /** No part holds the character '>', which every separator carries. */
  predicate Plain(parts: seq<string>)
  {
    forall i, j :: 0 <= i < |parts| && 0 <= j < |parts[i]| ==> parts[i][j] != '>'
  }

  /** In `p + Arrow + rest` with no '>' in `p`, the first separator is the one after `p`. */
  lemma FirstArrowAfterPlainPart(p: string, rest: string)
    requires forall j :: 0 <= j < |p| ==> p[j] != '>'
    ensures FindArrow(p + Arrow + rest, 0) == |p|
  {
    var s := p + Arrow + rest;
    assert HasArrowAt(s, |p|) by {
      assert s[|p|..|p| + |Arrow|] == Arrow;
    }
    forall m | 0 <= m < |p| ensures !HasArrowAt(s, m) {
      NoArrowInPlainPart(p, rest, m);
    }
  }

  lemma NoArrowInPlainPart(p: string, rest: string, m: nat)
    requires forall j :: 0 <= j < |p| ==> p[j] != '>'
    requires m < |p|
    ensures !HasArrowAt(p + Arrow + rest, m)
  {
    var s := p + Arrow + rest;
    if m + |Arrow| <= |s| {
      assert s[m + 2] != '>' by {
        if m + 2 < |p| {
          assert s[m + 2] == p[m + 2];
        } else {
          assert s[m + 2] == Arrow[m + 2 - |p|];
        }
      }
      assert s[m..m + |Arrow|][2] == s[m + 2];
    }
  }

  lemma NoArrowInPlain(s: string, m: nat)
    requires forall j :: 0 <= j < |s| ==> s[j] != '>'
    ensures !HasArrowAt(s, m)
  {
    if m + |Arrow| <= |s| {
      assert s[m..m + |Arrow|][2] == s[m + 2];
    }
  }

  /** Without '>' in any part, splitting the rendering gives back the parts. */
  lemma {:induction false} SplitJoin(parts: seq<string>)
    requires parts != [] && Plain(parts)
    ensures Split(Join(parts)) == parts
    decreases |parts|
  {
    if |parts| == 1 {
      var s := parts[0];
      forall m | 0 <= m < |s| ensures !HasArrowAt(s, m) {
        NoArrowInPlain(s, m);
      }
    } else {
      JoinFront(parts);
      var rest := Join(parts[1..]);
      var s := parts[0] + Arrow + rest;
      FirstArrowAfterPlainPart(parts[0], rest);
      assert s[..|parts[0]|] == parts[0];
      assert s[|parts[0]| + |Arrow|..] == rest;
      assert Plain(parts[1..]) by {
        forall i, j | 0 <= i < |parts| - 1 && 0 <= j < |parts[1..][i]| ensures parts[1..][i][j] != '>' {
          assert parts[1..][i] == parts[i + 1];
        }
      }
      SplitJoin(parts[1..]);
    }
  }
}
