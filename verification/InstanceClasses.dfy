/**
 The class of an EC2 instance type: an ordered chain of prefix tests on the family name, and the
 catalogue lookup that lists the types of a class.
 */
module InstanceClasses {
  import opened Options
  import opened Text

  /** The number of branches of the chain. */
  const BRANCHES := 22

  /** The prefixes tested by a branch, in the order of the chain. */
  function Tokens(j: nat): seq<string> {
    match j
    case 0 => ["p4de", "p4d", "p3dn", "p3", "p2", "p"]
    case 1 => ["dl1", "dl"]
    case 2 => ["inf1", "inf"]
    case 3 => ["trn1", "trn"]
    case 4 => ["g4dn", "g4ad", "g5", "g5g", "g3s", "g3", "g2", "g"]
    case 5 => ["f1", "f"]
    case 6 => ["vt1", "vt"]
    case 7 => ["i4i", "i3", "i3en", "i"]
    case 8 => ["lm4gn"]
    case 9 => ["ls4gen"]
    case 10 => ["d2", "d3", "d3en", "d"]
    case 11 => ["hpc6a", "hpc"]
    case 12 => ["h1", "h"]
    case 13 => ["r6a", "r6g", "r6i", "r5a", "r5b", "r5d", "r5dn", "r5ad", "r5n", "r6", "r5", "r4", "r"]
    case 14 => ["x2gd", "x2idn", "x2iedn", "x2iezn", "x1e", "x1", "x"]
    case 15 => ["u-"]
    case 16 => ["z1d", "z"]
    case 17 => ["c7g", "c6g", "c6gn", "c6i", "c5", "c5a", "c5n", "c4", "c"]
    case 18 => ["mac1", "mac2", "mac"]
    case 19 => ["t4g", "t3", "t3a", "t2", "t"]
    case 20 => ["m6g", "m6gd", "m6i", "m6id", "m6a", "m5", "m5a", "m5d", "m5ad", "m5dn", "m5n", "m5zn", "m4", "m"]
    case 21 => ["a1", "a"]
    case _ => []
  }

  /** The class a branch answers. */
  function Class(j: nat): string {
    match j
    case 0 => "P"
    case 1 => "DL"
    case 2 => "Inf"
    case 3 => "Trn"
    case 4 => "G"
    case 5 => "F"
    case 6 => "VT"
    case 7 => "I"
    case 8 => "lm4gn"
    case 9 => "ls4gen"
    case 10 => "D"
    case 11 => "HPC"
    case 12 => "H"
    case 13 => "R"
    case 14 => "X"
    case 15 => "HighMem"
    case 16 => "Z"
    case 17 => "C"
    case 18 => "mac"
    case 19 => "T"
    case 20 => "M"
    case 21 => "A"
    case _ => ""
  }

  predicate Standard(j: nat) {
    j in {7, 8, 9, 10, 13, 16, 17, 19, 20, 21}
  }

  predicate Matches(s: string, j: nat) {
    exists i :: 0 <= i < |Tokens(j)| && Tokens(j)[i] <= s
  }

  /** The first branch from `j` on that matches, or the number of branches. */
  function FirstMatch(s: string, j: nat): (i: nat)
    requires j <= BRANCHES
    ensures j <= i <= BRANCHES && (i < BRANCHES ==> Matches(s, i))
    ensures forall k | j <= k < i :: !Matches(s, k)
    decreases BRANCHES - j
  {
    if j == BRANCHES || Matches(s, j) then j else FirstMatch(s, j + 1)
  }

  function UpTo(s: string, stop: char): (prefix: string)
    ensures prefix <= s && stop !in prefix && (|prefix| < |s| ==> s[|prefix|] == stop)
  {
    if s == "" || s[0] == stop then "" else [s[0]] + UpTo(s[1..], stop)
  }

  function Family(instanceType: string): string {
    Lower(UpTo(instanceType, '.'))
  }

  /** The class of an instance type and whether it is standard; nothing for an unknown family. */
  function GetInstanceTypeClass(instanceType: string): Option<(string, bool)> {
    var i := FirstMatch(Family(instanceType), 0);
    if i < BRANCHES then Some((Class(i), Standard(i))) else None
  }

  lemma {:induction false} UpToStop(s: string, stop: char, rest: string)
    requires stop !in s && (rest == "" || rest[0] == stop)
    ensures UpTo(s + rest, stop) == s
  {
    if s == "" {
      assert s + rest == rest;
    } else {
      assert (s + rest)[1..] == s[1..] + rest;
      UpToStop(s[1..], stop, rest);
    }
  }

  /** The size after the dot and the case of the letters make no difference. */
  lemma ClassOfFamilyOnly(family: string, size: string, instanceType: string)
    requires '.' !in family && (size == "" || size[0] == '.')
    requires Lower(instanceType) == Lower(family + size)
    ensures GetInstanceTypeClass(instanceType) == GetInstanceTypeClass(Lower(family))
  {
    var t, n := instanceType, |family|;
    assert |t| == |family + size|;
    forall i | 0 <= i < |t| ensures t[i] == '.' <==> (family + size)[i] == '.' {
      assert Lower(t)[i] == LowerChar(t[i]) && Lower(family + size)[i] == LowerChar((family + size)[i]);
    }
    assert forall i | 0 <= i < n :: t[i] != '.';
    assert t == t[..n] + t[n..];
    UpToStop(t[..n], '.', t[n..]);
    var lower := Lower(family);
    assert forall i | 0 <= i < n :: lower[i] == LowerChar(family[i]) && lower[i] != '.';
    UpToStop(lower, '.', "");
    assert lower + "" == lower;
    forall i | 0 <= i < n ensures Lower(t[..n])[i] == lower[i] {
      assert Lower(t)[i] == LowerChar(t[i]) && Lower(family + size)[i] == LowerChar(family[i]);
    }
    assert Family(t) == lower == Family(lower);
  }

  // ----- The chain is a rule about the first letters -----

  function At(s: string, i: nat): char {
    if i < |s| then s[i] else ' '
  }

  /** The branch that the first letters of a family name call for, or the number of branches. */
  function Branch(s: string): nat {
    match At(s, 0)
    case 'p' => 0
    case 'd' => if At(s, 1) == 'l' then 1 else 10
    case 'i' => if At(s, 1) == 'n' && At(s, 2) == 'f' then 2 else 7
    case 't' => if At(s, 1) == 'r' && At(s, 2) == 'n' then 3 else 19
    case 'g' => 4
    case 'f' => 5
    case 'v' => if At(s, 1) == 't' then 6 else BRANCHES
    case 'l' =>
      if At(s, 1) == 'm' && At(s, 2) == '4' && At(s, 3) == 'g' && At(s, 4) == 'n' then 8
      else if At(s, 1) == 's' && At(s, 2) == '4' && At(s, 3) == 'g' && At(s, 4) == 'e' && At(s, 5) == 'n' then 9
      else BRANCHES
    case 'h' => if At(s, 1) == 'p' && At(s, 2) == 'c' then 11 else 12
    case 'r' => 13
    case 'x' => 14
    case 'u' => if At(s, 1) == '-' then 15 else BRANCHES
    case 'z' => 16
    case 'c' => 17
    case 'm' => if At(s, 1) == 'a' && At(s, 2) == 'c' then 18 else 20
    case 'a' => 21
    case _ => BRANCHES
  }

  lemma AcceleratedTokens(j: nat, i: nat)
    requires 0 <= j <= 6 && i < |Tokens(j)|
    ensures Branch(Tokens(j)[i]) == j
  {
    match j {
      case 0 => assert Branch(Tokens(0)[i]) == 0;
      case 1 => assert Branch(Tokens(1)[i]) == 1;
      case 2 => assert Branch(Tokens(2)[i]) == 2;
      case 3 => assert Branch(Tokens(3)[i]) == 3;
      case 4 => assert Branch(Tokens(4)[i]) == 4;
      case 5 => assert Branch(Tokens(5)[i]) == 5;
      case 6 => assert Branch(Tokens(6)[i]) == 6;
    }
  }

  lemma StorageTokens(j: nat, i: nat)
    requires 7 <= j <= 12 && i < |Tokens(j)|
    ensures Branch(Tokens(j)[i]) == j
  {
    match j {
      case 7 => assert Branch(Tokens(7)[i]) == 7;
      case 8 => assert Branch(Tokens(8)[i]) == 8;
      case 9 => assert Branch(Tokens(9)[i]) == 9;
      case 10 => assert Branch(Tokens(10)[i]) == 10;
      case 11 => assert Branch(Tokens(11)[i]) == 11;
      case 12 => assert Branch(Tokens(12)[i]) == 12;
    }
  }

  lemma MemoryTokens(j: nat, i: nat)
    requires 13 <= j <= 16 && i < |Tokens(j)|
    ensures Branch(Tokens(j)[i]) == j
  {
    match j {
      case 13 => assert Branch(Tokens(13)[i]) == 13;
      case 14 => assert Branch(Tokens(14)[i]) == 14;
      case 15 => assert Branch(Tokens(15)[i]) == 15;
      case 16 => assert Branch(Tokens(16)[i]) == 16;
    }
  }

  lemma ComputeTokens(j: nat, i: nat)
    requires 17 <= j <= 18 && i < |Tokens(j)|
    ensures Branch(Tokens(j)[i]) == j
  {
    match j {
      case 17 => assert Branch(Tokens(17)[i]) == 17;
      case 18 => assert Branch(Tokens(18)[i]) == 18;
    }
  }

  lemma GeneralTokens(j: nat, i: nat)
    requires 19 <= j <= 21 && i < |Tokens(j)|
    ensures Branch(Tokens(j)[i]) == j
  {
    match j {
      case 19 => assert Branch(Tokens(19)[i]) == 19;
      case 20 => assert Branch(Tokens(20)[i]) == 20;
      case 21 => assert Branch(Tokens(21)[i]) == 21;
    }
  }

  /** Every token sits in the branch its own first letters call for. */
  lemma TokensBelongToBranch(j: nat, i: nat)
    requires j < BRANCHES && i < |Tokens(j)|
    ensures Branch(Tokens(j)[i]) == j
  {
    if j < 7 {
      AcceleratedTokens(j, i);
    } else if j < 13 {
      StorageTokens(j, i);
    } else if j < 17 {
      MemoryTokens(j, i);
    } else if j < 19 {
      ComputeTokens(j, i);
    } else {
      GeneralTokens(j, i);
    }
  }

  /** The branch of a longer name comes no later in the chain. */
  lemma BranchOfExtension(s: string, t: string)
    requires s <= t && Branch(s) < BRANCHES
    ensures Branch(t) <= Branch(s)
  {
    assert forall i | 0 <= i < |s| :: At(t, i) == At(s, i);
  }

  // ----- The chain finds the longest prefix -----

  /** The token at position `i` of branch `j` is a prefix, and no token of any branch is a longer one. */
  ghost predicate LongestMatch(s: string, j: nat, i: nat) {
    && j < BRANCHES && i < |Tokens(j)| && Tokens(j)[i] <= s
    && forall k, l | 0 <= k < BRANCHES && 0 <= l < |Tokens(k)| && Tokens(k)[l] <= s :: |Tokens(k)[l]| <= |Tokens(j)[i]|
  }

  lemma LongestMatchDecides(s: string, j: nat, i: nat)
    requires LongestMatch(s, j, i)
    ensures FirstMatch(s, 0) == j
  {
    var f := FirstMatch(s, 0);
    assert Matches(s, j);
    var l :| 0 <= l < |Tokens(f)| && Tokens(f)[l] <= s;
    assert Tokens(f)[l] <= Tokens(j)[i];
    TokensBelongToBranch(f, l);
    TokensBelongToBranch(j, i);
    BranchOfExtension(Tokens(f)[l], Tokens(j)[i]);
  }

  /** From any matching token, a longest one. */
  lemma LongestMatchExists(s: string, j: nat, i: nat) returns (j': nat, i': nat)
    requires j < BRANCHES && i < |Tokens(j)| && Tokens(j)[i] <= s
    ensures LongestMatch(s, j', i')
    decreases |s| - |Tokens(j)[i]|
  {
    if LongestMatch(s, j, i) {
      j', i' := j, i;
    } else {
      var k, l :| 0 <= k < BRANCHES && 0 <= l < |Tokens(k)| && Tokens(k)[l] <= s && |Tokens(k)[l]| > |Tokens(j)[i]|;
      j', i' := LongestMatchExists(s, k, l);
    }
  }

  /**
   For every name, the ordered chain answers branch `j` exactly when a token of `j` is the longest
   prefix among the tokens of all branches; so it answers nothing exactly when no token is a prefix.
   */
  lemma ChainIsLongestPrefix(s: string, j: nat)
    requires j < BRANCHES
    ensures FirstMatch(s, 0) == j <==> exists i :: LongestMatch(s, j, i)
  {
    if FirstMatch(s, 0) == j {
      var i :| 0 <= i < |Tokens(j)| && Tokens(j)[i] <= s;
      var j', i' := LongestMatchExists(s, j, i);
      LongestMatchDecides(s, j', i');
    }
    if i :| LongestMatch(s, j, i) {
      LongestMatchDecides(s, j, i);
    }
  }

  const STANDARD: set<string> := {"I", "D", "R", "Z", "C", "T", "M", "A", "lm4gn", "ls4gen"}

  /**
   Which classes count as standard, for every instance type: those that comments in the chain mark so,
   except H, and two without such a comment, lm4gn and ls4gen.
   */
  lemma StandardExactly(instanceType: string)
    ensures var c := GetInstanceTypeClass(instanceType);
      c.Some? ==> (c.value.1 <==> c.value.0 in STANDARD)
  {
    var j := FirstMatch(Family(instanceType), 0);
    if j < BRANCHES {
      StandardBranch(j);
    }
  }

  lemma StandardBranch(j: nat)
    requires j < BRANCHES
    ensures Standard(j) <==> Class(j) in STANDARD
  {
    assert |Class(j)| <= 7;
    match j {
      case 0 => assert Class(0)[0] == 'P';
      case 1 => assert |Class(1)| == 2;
      case 2 => assert |Class(2)| == 3;
      case 3 => assert |Class(3)| == 3;
      case 4 => assert Class(4)[0] == 'G';
      case 5 => assert Class(5)[0] == 'F';
      case 6 => assert |Class(6)| == 2;
      case 7 =>
      case 8 =>
      case 9 =>
      case 10 =>
      case 11 => assert |Class(11)| == 3;
      case 12 => assert Class(12)[0] == 'H';
      case 13 =>
      case 14 => assert Class(14)[0] == 'X';
      case 15 => assert |Class(15)| == 7;
      case 16 =>
      case 17 =>
      case 18 => assert |Class(18)| == 3;
      case 19 =>
      case 20 =>
      case 21 =>
    }
  }

  // ----- The catalogue lists at least the types of a class -----

  /** The prefix by which the catalogue is searched for a class. */
  function CatalogueToken(instanceClass: string): string {
    if instanceClass == "HighMem" then "u-" else Lower(instanceClass)
  }

  function Selected(types: set<string>, token: string): set<string> {
    set t | t in types && token <= t
  }

  /** The types of the catalogue that start with the token, in some order and without repetition. */
  method GetInstanceTypesForClass(allTypes: set<string>, instanceClass: string) returns (result: seq<string>)
    ensures multiset(result) == multiset(Selected(allTypes, CatalogueToken(instanceClass)))
  {
    var token := if instanceClass == "HighMem" then "u-" else Lower(instanceClass);
    result := [];
    var rest := allTypes;
    ghost var listed: set<string> := {};
    while rest != {}
      invariant rest <= allTypes
      invariant forall t :: t in listed <==> t in allTypes && t !in rest && token <= t
      invariant multiset(result) == multiset(listed)
      decreases rest
    {
      var t :| t in rest;
      rest := rest - {t};
      if token <= t {
        result := result + [t];
        listed := listed + {t};
      }
    }
    assert listed == Selected(allTypes, token);
  }

  /** Branch `k` is tested before `j` and takes names that start with the catalogue token of `j`. */
  predicate Shadows(k: nat, j: nat) {
    (k == 1 && j == 10) || (k == 2 && j == 7) || (k == 3 && j == 19) || (k == 11 && j == 12) || (k == 18 && j == 20)
  }

  function Stem(j: nat): string {
    match j
    case 0 => "p"
    case 1 => "dl"
    case 2 => "inf"
    case 3 => "trn"
    case 4 => "g"
    case 5 => "f"
    case 6 => "vt"
    case 7 => "i"
    case 8 => "lm4gn"
    case 9 => "ls4gen"
    case 10 => "d"
    case 11 => "hpc"
    case 12 => "h"
    case 13 => "r"
    case 14 => "x"
    case 15 => "u-"
    case 16 => "z"
    case 17 => "c"
    case 18 => "mac"
    case 19 => "t"
    case 20 => "m"
    case 21 => "a"
    case _ => ""
  }

  lemma CatalogueTokenIsStem(j: nat)
    requires j < BRANCHES
    ensures CatalogueToken(Class(j)) == Stem(j) && '.' !in Stem(j)
  {
    match j {
      case 0 =>
      case 1 =>
      case 2 =>
      case 3 =>
      case 4 =>
      case 5 =>
      case 6 =>
      case 7 =>
      case 8 =>
      case 9 =>
      case 10 =>
      case 11 =>
      case 12 =>
      case 13 =>
      case 14 =>
      case 15 =>
      case 16 =>
      case 17 =>
      case 18 =>
      case 19 =>
      case 20 =>
      case 21 =>
    }
  }

  lemma StemIsToken(j: nat)
    requires j < BRANCHES
    ensures |Tokens(j)| > 0 && Tokens(j)[|Tokens(j)| - 1] == Stem(j)
  {
    match j {
      case 0 =>
      case 1 =>
      case 2 =>
      case 3 =>
      case 4 =>
      case 5 =>
      case 6 =>
      case 7 =>
      case 8 =>
      case 9 =>
      case 10 =>
      case 11 =>
      case 12 =>
      case 13 =>
      case 14 =>
      case 15 =>
      case 16 =>
      case 17 =>
      case 18 =>
      case 19 =>
      case 20 =>
      case 21 =>
    }
  }

  /** A name starts with the stem of a branch exactly when the branch, or one shadowing it, is called for. */
  lemma StemExactly(s: string, j: nat)
    requires j < BRANCHES
    ensures Stem(j) <= s <==> Branch(s) == j || Shadows(Branch(s), j)
  {
    assert Stem(j) <= s <==> |Stem(j)| <= |s| && forall i | 0 <= i < |Stem(j)| :: At(s, i) == Stem(j)[i];
    match j {
      case 0 =>
      case 1 =>
      case 2 =>
      case 3 =>
      case 4 =>
      case 5 =>
      case 6 =>
      case 7 =>
      case 8 =>
      case 9 =>
      case 10 =>
      case 11 =>
      case 12 =>
      case 13 =>
      case 14 =>
      case 15 =>
      case 16 =>
      case 17 =>
      case 18 =>
      case 19 =>
      case 20 =>
      case 21 =>
    }
  }

  lemma ChainIsBranch(s: string)
    ensures FirstMatch(s, 0) == Branch(s)
  {
    var f, b := FirstMatch(s, 0), Branch(s);
    if f < BRANCHES {
      var i :| 0 <= i < |Tokens(f)| && Tokens(f)[i] <= s;
      TokensBelongToBranch(f, i);
      BranchOfExtension(Tokens(f)[i], s);
    }
    if b < BRANCHES {
      StemExactly(s, b);
      StemIsToken(b);
      assert Matches(s, b);
    }
  }

  lemma FamilyKeepsPrefixes(t: string, token: string)
    requires Lower(t) == t && '.' !in token
    ensures token <= t <==> token <= Family(t)
  {
    var prefix := UpTo(t, '.');
    forall i | 0 <= i < |prefix| ensures Lower(prefix)[i] == prefix[i] {
      assert prefix[i] == t[i] == Lower(t)[i];
    }
    assert Lower(prefix) == prefix;
    if token <= t {
      assert forall i | 0 <= i < |token| :: t[i] == token[i] && token[i] in token;
    }
  }

  /**
   A lower-case type is listed for the class of branch `j` exactly when it is classified so, or by a
   branch that shadows `j`. So every type is listed for its class; trn types are listed under T, too.
   */
  lemma ListedExactly(types: set<string>, t: string, j: nat)
    requires t in types && Lower(t) == t && j < BRANCHES
    ensures var chosen := FirstMatch(Family(t), 0);
      t in Selected(types, CatalogueToken(Class(j))) <==> chosen == j || Shadows(chosen, j)
  {
    CatalogueTokenIsStem(j);
    FamilyKeepsPrefixes(t, Stem(j));
    StemExactly(Family(t), j);
    ChainIsBranch(Family(t));
  }
}
