/** Nucleotide complement and reverse complement over raw sequence bytes. */
module Nucleotide {

  /** One byte of a FASTA sequence line (Rust's `u8`). */
  newtype byte = b: int | 0 <= b < 256

  /** The byte holding the ASCII code of `c`. */
  function Byte(c: char): byte
    requires c as int < 256
  {
    c as int as byte
  }

  /** The bytes of an ASCII string, as a Rust byte-string literal `b"..."` spells them. */
  function Bytes(s: string): (r: seq<byte>)
    requires forall i :: 0 <= i < |s| ==> s[i] as int < 256
    ensures |r| == |s|
    ensures forall i :: 0 <= i < |s| ==> r[i] == Byte(s[i])
  {
    seq(|s|, i requires 0 <= i < |s| => Byte(s[i]))
  }

  /** The ten symbols the complement table recognises: DNA and RNA bases, in either case
      (`A C G T U a c g t u`). */
  predicate IsNucleotide(b: byte)
  {
    b in {65, 67, 71, 84, 85, 97, 99, 103, 116, 117}
  }

  /** The four DNA bases, in either case (`A C G T a c g t`). */
  predicate IsDnaBase(b: byte)
  {
    b in {65, 67, 71, 84, 97, 99, 103, 116}
  }

  /** `a` to `z`. */
  predicate IsLower(b: byte)
  {
    97 <= b <= 122
  }

  /** ASCII upper-casing. */
  function ToUpper(b: byte): byte
  {
    if IsLower(b) then b - 32 else b
  }

  /** Watson-Crick pairing of upper-case bases (`A-T`, `C-G`); uracil (`U`) pairs with adenine. */
  predicate Pairs(x: byte, y: byte)
  {
    (x == 65 && y == 84) || (x == 84 && y == 65) ||
    (x == 67 && y == 71) || (x == 71 && y == 67) ||
    (x == 85 && y == 65)
  }

  /** The complement of one sequence byte. A recognised base is paired with its DNA partner in the
      same case; every other byte, `n` and the IUPAC ambiguity codes included, becomes upper-case `N` (78). */
  function Complement(a: byte): (r: byte)
    ensures IsNucleotide(a) ==> IsDnaBase(r) && Pairs(ToUpper(a), ToUpper(r)) && (IsLower(a) <==> IsLower(r))
    ensures !IsNucleotide(a) ==> r == 78
  {
    if a == 97 then 116              // a -> t
    else if a == 99 then 103         // c -> g
    else if a == 116 then 97         // t -> a
    else if a == 103 then 99         // g -> c
    else if a == 117 then 97         // u -> a
    else if a == 65 then 84          // A -> T
    else if a == 67 then 71          // C -> G
    else if a == 84 then 65          // T -> A
    else if a == 71 then 67          // G -> C
    else if a == 85 then 65          // U -> A
    else 78                          // N
  }

  /** The bytes that complementing twice gives back: the DNA bases and `N`. */
  predicate IsStable(b: byte)
  {
    IsDnaBase(b) || b == 78
  }

  /** Every complement is a DNA base or `N`. */
  lemma ComplementRange(a: byte)
    ensures IsStable(Complement(a))
  {
  }

  /** Complementing twice is the identity exactly on the DNA bases and `N`: `u`/`U` come back as `t`/`T`,
      every other byte as `N`. */
  lemma ComplementInvolution(a: byte)
    ensures Complement(Complement(a)) == a <==> IsStable(a)
  {
  }

  /** Reverse the sequence and complement each byte. */
  function RevComp(s: seq<byte>): (r: seq<byte>)
    ensures |r| == |s|
    ensures forall i :: 0 <= i < |s| ==> r[i] == Complement(s[|s| - 1 - i])
  {
    if s == [] then [] else [Complement(s[|s| - 1])] + RevComp(s[..|s| - 1])
  }

  /** Reverse-complementing twice complements every byte twice, in place. */
  lemma RevCompTwice(s: seq<byte>)
    ensures |RevComp(RevComp(s))| == |s|
    ensures forall i :: 0 <= i < |s| ==> RevComp(RevComp(s))[i] == Complement(Complement(s[i]))
  {
    var rr := RevComp(RevComp(s));
    forall i | 0 <= i < |s|
      ensures rr[i] == Complement(Complement(s[i]))
    {
      assert |s| - 1 - (|s| - 1 - i) == i;
    }
  }

  lemma RevCompTwiceKeeps(s: seq<byte>)
    requires forall i :: 0 <= i < |s| ==> IsStable(s[i])
    ensures RevComp(RevComp(s)) == s
  {
    RevCompTwice(s);
    forall i | 0 <= i < |s|
      ensures RevComp(RevComp(s))[i] == s[i]
    {
      ComplementInvolution(s[i]);
    }
  }

  lemma RevCompTwiceChanges(s: seq<byte>, i: nat)
    requires i < |s| && !IsStable(s[i])
    ensures RevComp(RevComp(s)) != s
  {
    RevCompTwice(s);
    ComplementInvolution(s[i]);
  }

  /** The reverse complement of a reverse complement gives the sequence back exactly when every byte of it is
      a DNA base or `N`. */
  lemma RevCompInvolution(s: seq<byte>)
    ensures RevComp(RevComp(s)) == s <==> forall i :: 0 <= i < |s| ==> IsStable(s[i])
  {
    if i :| 0 <= i < |s| && !IsStable(s[i]) {
      RevCompTwiceChanges(s, i);
    } else {
      RevCompTwiceKeeps(s);
    }
  }

  /** On the alphabet {A,C,G,T,a,c,g,t} the reverse complement is its own inverse. */
  lemma RevCompInvolutionOnDna(s: seq<byte>)
    requires forall i :: 0 <= i < |s| ==> IsDnaBase(s[i])
    ensures RevComp(RevComp(s)) == s
  {
    RevCompInvolution(s);
  }

  /** Reverse complement distributes over concatenation, swapping the parts. */
  lemma RevCompConcat(a: seq<byte>, b: seq<byte>)
    ensures RevComp(a + b) == RevComp(b) + RevComp(a)
  {
    var l, r := RevComp(a + b), RevComp(b) + RevComp(a);
    forall i | 0 <= i < |a| + |b|
      ensures l[i] == r[i]
    {
      if i < |b| {
        assert (a + b)[|a| + |b| - 1 - i] == b[|b| - 1 - i];
      } else {
        assert (a + b)[|a| + |b| - 1 - i] == a[|a| - 1 - (i - |b|)];
      }
    }
  }

  /** The reverse complement of five bytes, spelled out. */
  lemma RevCompOfFive(a: byte, b: byte, c: byte, d: byte, e: byte)
    ensures RevComp([a, b, c, d, e]) == [Complement(e), Complement(d), Complement(c), Complement(b), Complement(a)]
  {
    var s, r := [a, b, c, d, e], RevComp([a, b, c, d, e]);
    forall i | 0 <= i < 5
      ensures r[i] == Complement(s[4 - i])
    {
    }
  }

  /** The reverse complement of seven bytes, spelled out. */
  lemma RevCompOfSeven(a: byte, b: byte, c: byte, d: byte, e: byte, f: byte, g: byte)
    ensures RevComp([a, b, c, d, e, f, g])
         == [Complement(g), Complement(f), Complement(e), Complement(d), Complement(c), Complement(b), Complement(a)]
  {
    var s, r := [a, b, c, d, e, f, g], RevComp([a, b, c, d, e, f, g]);
    forall i | 0 <= i < 7
      ensures r[i] == Complement(s[6 - i])
    {
    }
  }

  /** The worked example `ACGTN -> NACGT`. */
  lemma RevCompExample()
    ensures RevComp(Bytes("ACGTN")) == Bytes("NACGT")
  {
    assert Bytes("ACGTN") == [Byte('A'), Byte('C'), Byte('G'), Byte('T'), Byte('N')];
    RevCompOfFive(Byte('A'), Byte('C'), Byte('G'), Byte('T'), Byte('N'));
  }

  /** Case is kept base by base: `GaTtaCA -> TGtaAtC`. */
  lemma RevCompCaseExample()
    ensures RevComp(Bytes("GaTtaCA")) == Bytes("TGtaAtC")
  {
    assert Bytes("GaTtaCA") == [Byte('G'), Byte('a'), Byte('T'), Byte('t'), Byte('a'), Byte('C'), Byte('A')];
    RevCompOfSeven(Byte('G'), Byte('a'), Byte('T'), Byte('t'), Byte('a'), Byte('C'), Byte('A'));
  }

  /** Lower-case `n` and the IUPAC ambiguity codes are not recognised: a stretch of them comes out as a
      stretch of upper-case `N` of the same length, so the ambiguity-aware rule that would turn `Y` into `R`
      does not hold for this table. */
  lemma RevCompCollapsesUnrecognised(s: seq<byte>)
    requires forall i :: 0 <= i < |s| ==> !IsNucleotide(s[i])
    ensures |RevComp(s)| == |s|
    ensures forall i :: 0 <= i < |s| ==> RevComp(s)[i] == Byte('N')
  {
  }

  /** `n` and an ambiguity code such as `Y` each become `N`. */
  lemma RevCompAmbiguityExample()
    ensures RevComp(Bytes("AYn")) == Bytes("NNT")
  {
    var s, t := Bytes("AYn"), Bytes("NNT");
    forall i | 0 <= i < 3
      ensures RevComp(s)[i] == t[i]
    {
    }
  }
}
