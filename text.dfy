/** String helpers: Ruby's `Array#join` and a substring test. */
module Text {

  /** `parts.join(sep)`: the parts with `sep` between neighbours; "" for no parts. */
  function Join(parts: seq<string>, sep: string): string
  {
    if |parts| == 0 then ""
    else if |parts| == 1 then parts[0]
    else parts[0] + sep + Join(parts[1..], sep)
  }

  /** `piece` occurs in `s` starting at offset `at`. */
  predicate OccursAt(piece: string, s: string, at: nat)
  {
    at + |piece| <= |s| && s[at..at + |piece|] == piece
  }

  /** `piece` occurs somewhere in `s`. */
  ghost predicate Contains(s: string, piece: string)
  {
    exists at: nat :: OccursAt(piece, s, at)
  }

  /** Appending one more part appends the separator and that part. */
  lemma {:induction false} JoinSnoc(parts: seq<string>, last: string, sep: string)
    requires |parts| > 0
    ensures Join(parts + [last], sep) == Join(parts, sep) + sep + last
  {
    if |parts| == 1 {
      assert parts + [last] == [parts[0], last];
      assert ([parts[0], last])[1..] == [last];
    } else {
      assert (parts + [last])[1..] == parts[1..] + [last];
      JoinSnoc(parts[1..], last, sep);
    }
  }

  /** A join of a non-empty list ends with its last part. */
  lemma JoinEndsWithLast(parts: seq<string>, sep: string)
    requires |parts| > 0
    ensures |Join(parts, sep)| >= |parts[|parts| - 1]|
    ensures OccursAt(parts[|parts| - 1], Join(parts, sep), |Join(parts, sep)| - |parts[|parts| - 1]|)
  {
    var n := |parts|;
    if n > 1 {
      var init := parts[..n - 1];
      assert init + [parts[n - 1]] == parts;
      JoinSnoc(init, parts[n - 1], sep);
    }
  }

  /** Every part of a list occurs in the join of that list. */
  lemma {:induction false} JoinContainsPart(parts: seq<string>, sep: string, k: nat) returns (at: nat)
    requires k < |parts|
    ensures OccursAt(parts[k], Join(parts, sep), at)
  {
    if |parts| == 1 {
      at := 0;
    } else {
      var rest := Join(parts[1..], sep);
      assert Join(parts, sep) == parts[0] + sep + rest;
      if k == 0 {
        at := 0;
        assert Join(parts, sep)[..|parts[0]|] == parts[0];
      } else {
        var inner := JoinContainsPart(parts[1..], sep, k - 1);
        at := |parts[0]| + |sep| + inner;
        assert Join(parts, sep)[at..at + |parts[k]|] == rest[inner..inner + |parts[k]|];
      }
    }
  }

  /** If `s` contains `piece`, so does any string built around `s`. */
  lemma ContainsInContext(prefix: string, s: string, suffix: string, piece: string, at: nat)
    requires OccursAt(piece, s, at)
    ensures OccursAt(piece, prefix + s + suffix, |prefix| + at)
  {
    assert (prefix + s + suffix)[|prefix| + at..|prefix| + at + |piece|] == s[at..at + |piece|];
  }
}
