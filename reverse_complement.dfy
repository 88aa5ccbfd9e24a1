/** Reverse complement of a nucleotide string.

    The scripts build it with chained `str.replace` calls that swap A<->T and
    G<->C through a `%temp%` placeholder, then reverse the string with
    `[::-1]`. For input that holds no '%' this is the same as mapping every
    character through `Complement` and reversing, which is what is modelled
    here; characters other than A, C, G, T pass through unchanged. */
module ReverseComplement {

  predicate IsBase(c: char) {
    c == 'A' || c == 'C' || c == 'G' || c == 'T'
  }

  /** True when every character of `s` is one of A, C, G, T. */
  predicate IsDna(s: string) {
    forall i :: 0 <= i < |s| ==> IsBase(s[i])
  }

  /** The per-character substitution that the chained replacements perform. */
  function Complement(c: char): char {
    match c
    case 'A' => 'T'
    case 'T' => 'A'
    case 'G' => 'C'
    case 'C' => 'G'
    case _ => c
  }

  /** `s` with every character complemented, in the original order. */
  function Complemented(s: string): (r: string)
    ensures |r| == |s|
  {
    seq(|s|, i requires 0 <= i < |s| => Complement(s[i]))
  }

  /** `s[::-1]` */
  function Reverse(s: string): (r: string)
    ensures |r| == |s|
  {
    seq(|s|, i requires 0 <= i < |s| => s[|s| - 1 - i])
  }

  /** reverse_complement(s); the placeholder trick is faithful only when `s`
      holds no '%'. The length is kept and position i of the result is the
      complement of the mirrored position of the input. */
  function RevComp(s: string): (r: string)
    requires '%' !in s
    ensures |r| == |s|
    ensures forall i :: 0 <= i < |s| ==> r[i] == Complement(s[|s| - 1 - i])
  {
    Reverse(Complemented(s))
  }

  lemma ComplementInvolution(c: char)
    ensures Complement(Complement(c)) == c
    ensures IsBase(Complement(c)) == IsBase(c)
    ensures !IsBase(c) ==> Complement(c) == c
  {
  }

  /** Characters outside {A, C, G, T} are copied to the mirrored position. */
  lemma RevCompPassesThrough(s: string, i: int)
    requires '%' !in s
    requires 0 <= i < |s| && !IsBase(s[|s| - 1 - i])
    ensures RevComp(s)[i] == s[|s| - 1 - i]
  {
  }

  /** No '%' is introduced, so the result can itself be reverse-complemented. */
  lemma RevCompNoPercent(s: string)
    requires '%' !in s
    ensures '%' !in RevComp(s)
  {
  }

  /** A DNA string stays a DNA string. */
  lemma RevCompIsDna(s: string)
    requires '%' !in s && IsDna(s)
    ensures IsDna(RevComp(s))
  {
    forall i | 0 <= i < |s| ensures IsBase(RevComp(s)[i]) {
      ComplementInvolution(s[|s| - 1 - i]);
    }
  }

  /** Reverse complement undoes itself. The per-character map is its own
      inverse on every character, so this holds for DNA strings and for any
      other input free of '%'. */
  lemma RevCompInvolution(s: string)
    requires '%' !in s
    ensures '%' !in RevComp(s) && RevComp(RevComp(s)) == s
  {
    RevCompNoPercent(s);
    var r := RevComp(RevComp(s));
    assert |r| == |s|;
    forall i | 0 <= i < |s| ensures r[i] == s[i] {
      ComplementInvolution(s[i]);
    }
  }

  /** rc(s + t) == rc(t) + rc(s) */
  lemma RevCompConcat(s: string, t: string)
    requires '%' !in s && '%' !in t
    ensures '%' !in s + t && RevComp(s + t) == RevComp(t) + RevComp(s)
  {
    var u := s + t;
    var l, r := RevComp(u), RevComp(t) + RevComp(s);
    assert |l| == |r|;
    forall i | 0 <= i < |u| ensures l[i] == r[i] {
      if i < |t| {
        assert u[|u| - 1 - i] == t[|t| - 1 - i];
      } else {
        assert u[|u| - 1 - i] == s[|s| - 1 - (i - |t|)];
      }
    }
  }
}
