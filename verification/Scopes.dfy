/** Space-delimited scope lists, as in section 3.3 of RFC 6749: joined by the client, split by the server. */
module Scopes {

  function Join(xs: seq<string>): string {
    if xs == [] then "" else if |xs| == 1 then xs[0] else xs[0] + " " + Join(xs[1..])
  }

  /** Splits at every single space, so that adjacent spaces enclose an empty piece. */
  function Split(s: string): (pieces: seq<string>)
    ensures pieces != []
  {
    if s == "" then [""]
    else
      var rest := Split(s[1..]);
      if s[0] == ' ' then [""] + rest else [[s[0]] + rest[0]] + rest[1..]
  }

  predicate SpaceFree(s: string) {
    ' ' !in s
  }

  lemma {:induction false} SplitAtFirstSpace(x: string, s: string)
    requires SpaceFree(x)
    ensures Split(x + " " + s) == [x] + Split(s)
  {
    var text := x + " " + s;
    if x == "" {
      assert text[1..] == s;
    } else {
      SplitAtFirstSpace(x[1..], s);
      assert text[1..] == x[1..] + " " + s;
      assert [x[0]] + x[1..] == x;
    }
  }

  lemma {:induction false} SplitOfSpaceFree(x: string)
    requires SpaceFree(x)
    ensures Split(x) == [x]
  {
    if x != "" {
      SplitOfSpaceFree(x[1..]);
      assert [x[0]] + x[1..] == x;
    }
  }

  lemma {:induction false} PiecesAreSpaceFree(s: string)
    ensures forall p | p in Split(s) :: SpaceFree(p)
  {
    if s != "" {
      PiecesAreSpaceFree(s[1..]);
      var rest := Split(s[1..]);
      assert SpaceFree(rest[0]) && forall p | p in rest[1..] :: p in rest;
    }
  }

  lemma {:induction false} SplitOfJoined(xs: seq<string>)
    requires xs != [] && forall x | x in xs :: SpaceFree(x)
    ensures Split(Join(xs)) == xs
  {
    if |xs| == 1 {
      SplitOfSpaceFree(xs[0]);
    } else {
      SplitOfJoined(xs[1..]);
      SplitAtFirstSpace(xs[0], Join(xs[1..]));
      assert xs == [xs[0]] + xs[1..];
    }
  }

  /** Joining and splitting is the identity exactly on the non-empty lists of space-free scopes. */
  lemma SplitInvertsJoinExactly(xs: seq<string>)
    ensures Split(Join(xs)) == xs <==> xs != [] && forall x | x in xs :: SpaceFree(x)
  {
    PiecesAreSpaceFree(Join(xs));
    if xs != [] && forall x | x in xs :: SpaceFree(x) {
      SplitOfJoined(xs);
    }
  }

  /** Splitting and joining is the identity on every text. */
  lemma {:induction false} JoinInvertsSplit(s: string)
    ensures Join(Split(s)) == s
  {
    if s != "" {
      var rest := Split(s[1..]);
      JoinInvertsSplit(s[1..]);
      if s[0] == ' ' {
        assert ([""] + rest)[1..] == rest;
        assert "" + " " + s[1..] == s;
      } else {
        var pieces := [[s[0]] + rest[0]] + rest[1..];
        assert pieces[1..] == rest[1..];
        assert Join(pieces) == [s[0]] + Join(rest);
      }
    }
  }
}
