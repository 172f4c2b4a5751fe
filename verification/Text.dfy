/** The string helpers the other modules share: Go's TrimSpace, Cut, Split, Join, Itoa and Atoi. */
module Text {

  datatype Option<+T> = None | Some(value: T)

  // ---------------------------------------------------------------- white space

  /** unicode.IsSpace. */
  predicate IsSpace(ch: char) {
    var c := ch as int;
    || 9 <= c <= 13 || c == 0x20 || c == 0x85 || c == 0xA0 || c == 0x1680 || 0x2000 <= c <= 0x200A
    || c == 0x2028 || c == 0x2029 || c == 0x202F || c == 0x205F || c == 0x3000
  }

  function TrimLeft(s: string): string {
    if s != [] && IsSpace(s[0]) then TrimLeft(s[1..]) else s
  }

  function TrimRight(s: string): string {
    if s != [] && IsSpace(s[|s| - 1]) then TrimRight(s[..|s| - 1]) else s
  }

  /** strings.TrimSpace. */
  function TrimSpace(s: string): string { TrimRight(TrimLeft(s)) }

  /** No white space at either end. */
  predicate Trimmed(s: string) { s != [] ==> !IsSpace(s[0]) && !IsSpace(s[|s| - 1]) }

  lemma {:induction false} TrimRightKeepsHead(s: string)
    ensures TrimRight(s) <= s
    ensures s != [] && !IsSpace(s[0]) ==> TrimRight(s) != [] && TrimRight(s)[0] == s[0]
    ensures TrimRight(s) != [] ==> !IsSpace(TrimRight(s)[|TrimRight(s)| - 1])
  {
    if s != [] && IsSpace(s[|s| - 1]) {
      TrimRightKeepsHead(s[..|s| - 1]);
    }
  }

  lemma {:induction false} TrimLeftStops(s: string)
    ensures TrimLeft(s) != [] ==> !IsSpace(TrimLeft(s)[0])
  {
    if s != [] && IsSpace(s[0]) {
      TrimLeftStops(s[1..]);
    }
  }

  lemma TrimSpaceTrims(s: string)
    ensures Trimmed(TrimSpace(s))
    ensures Trimmed(s) ==> TrimSpace(s) == s
  {
    TrimLeftStops(s);
    TrimRightKeepsHead(TrimLeft(s));
  }

  lemma {:induction false} TrimLeftBlank(s: string)
    ensures TrimLeft(s) == "" <==> forall ch <- s :: IsSpace(ch)
  {
    if s != [] {
      TrimLeftBlank(s[1..]);
      assert s == [s[0]] + s[1..];
    }
  }

  /** Only white space trims to nothing. */
  lemma TrimSpaceBlank(s: string)
    ensures TrimSpace(s) == "" <==> forall ch <- s :: IsSpace(ch)
  {
    TrimLeftBlank(s);
    TrimLeftStops(s);
    TrimRightKeepsHead(TrimLeft(s));
  }

  lemma {:induction false} TrimLeftPadded(a: string, s: string)
    requires forall ch <- a :: IsSpace(ch)
    ensures TrimLeft(a + s) == TrimLeft(s)
    decreases a
  {
    if a == [] {
      assert a + s == s;
    } else {
      assert (a + s)[1..] == a[1..] + s;
      TrimLeftPadded(a[1..], s);
    }
  }

  lemma {:induction false} TrimRightPadded(s: string, b: string)
    requires forall ch <- b :: IsSpace(ch)
    ensures TrimRight(s + b) == TrimRight(s)
    decreases b
  {
    if b == [] {
      assert s + b == s;
    } else {
      assert (s + b)[..|s + b| - 1] == s + b[..|b| - 1];
      TrimRightPadded(s, b[..|b| - 1]);
    }
  }

  lemma {:induction false} TrimLeftAppend(s: string, b: string)
    ensures TrimLeft(s) != [] ==> TrimLeft(s + b) == TrimLeft(s) + b
    ensures TrimLeft(s) == [] ==> TrimLeft(s + b) == TrimLeft(b)
    decreases s
  {
    if s == [] {
      assert s + b == b;
    } else {
      assert (s + b)[1..] == s[1..] + b;
      if IsSpace(s[0]) { TrimLeftAppend(s[1..], b); }
    }
  }

  lemma TrimSpacePadded(a: string, s: string, b: string)
    requires (forall ch <- a :: IsSpace(ch)) && (forall ch <- b :: IsSpace(ch))
    ensures TrimSpace(a + s + b) == TrimSpace(s)
  {
    assert a + s + b == a + (s + b);
    TrimLeftPadded(a, s + b);
    TrimLeftAppend(s, b);
    if TrimLeft(s) != [] {
      TrimRightPadded(TrimLeft(s), b);
    } else {
      TrimLeftPadded(b, "");
      assert b + "" == b;
    }
  }

  lemma {:induction false} TrimLeftSplit(s: string) returns (a: string)
    ensures s == a + TrimLeft(s) && forall ch <- a :: IsSpace(ch)
  {
    if s != [] && IsSpace(s[0]) {
      a := TrimLeftSplit(s[1..]);
      a := [s[0]] + a;
    } else {
      a := "";
    }
  }

  lemma {:induction false} TrimRightSplit(s: string) returns (b: string)
    ensures s == TrimRight(s) + b && forall ch <- b :: IsSpace(ch)
  {
    if s != [] && IsSpace(s[|s| - 1]) {
      b := TrimRightSplit(s[..|s| - 1]);
      b := b + [s[|s| - 1]];
    } else {
      b := "";
    }
  }

  /** Only white space at the ends is trimmed. */
  lemma TrimSpaceSplit(s: string) returns (a: string, b: string)
    ensures s == a + TrimSpace(s) + b && (forall ch <- a :: IsSpace(ch)) && forall ch <- b :: IsSpace(ch)
  {
    a := TrimLeftSplit(s);
    b := TrimRightSplit(TrimLeft(s));
  }

  // ---------------------------------------------------------------- cut, split, join

  /** The index of the first sep, or |s|. */
  function IndexOf(s: string, sep: char): (i: nat)
    ensures i <= |s| && sep !in s[..i] && (i < |s| ==> s[i] == sep)
  {
    if s == [] || s[0] == sep then 0 else
      var i := IndexOf(s[1..], sep);
      assert s[..1 + i] == [s[0]] + s[1..][..i];
      1 + i
  }

  /** The first sep is the only one any text before it leaves. */
  lemma IndexOfUnique(s: string, sep: char, i: nat)
    requires i <= |s| && sep !in s[..i] && (i < |s| ==> s[i] == sep)
    ensures IndexOf(s, sep) == i
  {
    var j := IndexOf(s, sep);
    assert forall k | 0 <= k < j :: s[..j][k] == s[k] != sep;
    assert forall k | 0 <= k < i :: s[..i][k] == s[k] != sep;
  }

  /** strings.Cut around a one-character separator: None when there is none. */
  function Cut(s: string, sep: char): Option<(string, string)> {
    var i := IndexOf(s, sep);
    if i == |s| then None else Some((s[..i], s[i + 1..]))
  }

  lemma CutJoined(a: string, sep: char, b: string)
    requires sep !in a
    ensures Cut(a + [sep] + b, sep) == Some((a, b))
  {
    var s := a + [sep] + b;
    assert s[..|a|] == a && s[|a| + 1..] == b;
    IndexOfUnique(s, sep, |a|);
  }

  lemma CutAbsent(s: string, sep: char)
    requires sep !in s
    ensures Cut(s, sep) == None
  {
    IndexOfUnique(s, sep, |s|);
  }

  lemma CutParts(s: string, sep: char)
    ensures match Cut(s, sep)
            case None => sep !in s
            case Some(p) => s == p.0 + [sep] + p.1 && sep !in p.0
  {
    assert s[..|s|] == s;
  }

  /** strings.Split around a one-character separator. */
  function Split(s: string, sep: char): (parts: seq<string>)
    ensures parts != []
  {
    var i := IndexOf(s, sep);
    if i == |s| then [s] else [s[..i]] + Split(s[i + 1..], sep)
  }

  /** strings.Join. */
  function Join(parts: seq<string>, sep: string): string {
    if parts == [] then "" else if |parts| == 1 then parts[0] else parts[0] + sep + Join(parts[1..], sep)
  }

  lemma {:induction false} SplitJoin(parts: seq<string>, sep: char)
    requires parts != [] && forall p <- parts :: sep !in p
    ensures Split(Join(parts, [sep]), sep) == parts
    decreases parts
  {
    var s := Join(parts, [sep]);
    assert parts[0] in parts;
    if |parts| == 1 {
      assert s[..|s|] == parts[0];
      IndexOfUnique(s, sep, |s|);
    } else {
      var rest := Join(parts[1..], [sep]);
      assert s[..|parts[0]|] == parts[0] && s[|parts[0]| + 1..] == rest;
      IndexOfUnique(s, sep, |parts[0]|);
      SplitJoin(parts[1..], sep);
    }
  }

  lemma {:induction false} JoinSplit(s: string, sep: char)
    ensures Join(Split(s, sep), [sep]) == s
    ensures forall p <- Split(s, sep) :: sep !in p
  {
    var i := IndexOf(s, sep);
    if i < |s| {
      JoinSplit(s[i + 1..], sep);
      assert s == s[..i] + [sep] + s[i + 1..];
      assert Split(s, sep)[1..] == Split(s[i + 1..], sep);
    } else {
      assert s[..i] == s;
    }
  }
}
