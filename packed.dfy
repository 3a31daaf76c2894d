/** The packed DNA container: nucleotides stored at two bits each, four to a byte. The code
    of position i sits in byte i / 4 at bit offset (i % 4) * 2; bit pairs past the length
    in the last byte are zero. */
module Packed {
  import opened Nucleotide

  /** Bytes needed for n two-bit codes: ceil(n / 4). */
  function BytesFor(n: nat): nat
  {
    (n + 3) / 4
  }

  /** Position i of a sequence of n nucleotides lies in one of the buffer's bytes. */
  lemma IndexInBuffer(i: nat, n: nat)
    requires i < n
    ensures i / 4 < BytesFor(n)
  {
    assert i == 4 * (i / 4) + i % 4;
  }

  /** The code c placed at pair k of a byte, i.e. shifted left by k * 2 bits. */
  function Slot(c: bv8, k: nat): bv8
    requires k < 4
  {
    if k == 0 then c else if k == 1 then c << 2 else if k == 2 then c << 4 else c << 6
  }

  /** The two bits of pair k of a byte, i.e. shifted right by k * 2 bits and masked. */
  function Field(b: bv8, k: nat): (f: bv8)
    requires k < 4
    ensures f < 4
  {
    if k == 0 then b & 3 else if k == 1 then (b >> 2) & 3 else if k == 2 then (b >> 4) & 3 else (b >> 6) & 3
  }

  /** Every pair of the byte from pair n upwards is zero. */
  predicate HighClear(b: bv8, n: nat)
    requires n <= 4
  {
    if n == 0 then b == 0
    else if n == 1 then b & 0xFC == 0
    else if n == 2 then b & 0xF0 == 0
    else if n == 3 then b & 0xC0 == 0
    else true
  }

  /** `Slot` and `Field` are the shifts by (k * 2) bits that the packed layout is defined by. */
  lemma SlotFieldAreShifts(c: bv8, b: bv8, k: nat)
    requires k < 4
    ensures Slot(c, k) == c << (2 * k)
    ensures Field(b, k) == (b >> (2 * k)) & 3
    ensures HighClear(b, k) <==> b >> (2 * k) == 0
  {
    if k == 0 {} else if k == 1 {} else if k == 2 {} else {}
  }

  /** Or-ing a code into the pair just above a byte's used pairs keeps the pairs above it zero. */
  lemma OrBound(p: bv8, c: bv8, m: nat)
    requires m <= 3 && c < 4 && HighClear(p, m)
    ensures HighClear(p | Slot(c, m), m + 1)
  {
    if m == 0 {} else if m == 1 {} else if m == 2 {} else {}
  }

  /** After or-ing a code into the pair just above a byte's used pairs, that pair reads back
      the code and every lower pair reads back what it held. */
  lemma OrField(p: bv8, c: bv8, m: nat, j: nat)
    requires j <= m <= 3 && c < 4 && HighClear(p, m)
    ensures Field(p | Slot(c, m), j) == if j == m then c else Field(p, j)
  {
    if m == 0 {
    } else if m == 1 {
      if j == 0 {} else {}
    } else if m == 2 {
      if j == 0 {} else if j == 1 {} else {}
    } else {
      if j == 0 {} else if j == 1 {} else if j == 2 {} else {}
    }
  }

  /** Packs a group of at most four nucleotides into one byte, element j at pair j.
      No pair above the group's last one is set. */
  function PackGroup(g: seq<Nuc>): (b: bv8)
    requires |g| <= 4
    ensures HighClear(b, |g|)
  {
    if g == [] then 0
    else
      var m := |g| - 1;
      var prefix := PackGroup(g[..m]);
      OrBound(prefix, Code(g[m]), m);
      prefix | Slot(Code(g[m]), m)
  }

  /** The nucleotides that byte b of the packing of s holds: those of positions 4b .. 4b+3. */
  function Group(s: seq<Nuc>, b: nat): (g: seq<Nuc>)
    requires 4 * b < |s|
    ensures 0 < |g| <= 4
  {
    if 4 * b + 4 <= |s| then s[4 * b .. 4 * b + 4] else s[4 * b ..]
  }

  /** Byte b of the packing of s; zero for a byte past the last code. */
  function ByteAt(s: seq<Nuc>, b: nat): bv8
  {
    if 4 * b < |s| then PackGroup(Group(s, b)) else 0
  }

  /** The packed byte buffer of a nucleotide sequence. */
  function Pack(s: seq<Nuc>): (bytes: seq<bv8>)
    ensures |bytes| == BytesFor(|s|)
  {
    seq(BytesFor(|s|), b requires 0 <= b => ByteAt(s, b))
  }

  /** Every byte of `bytes` is the matching byte of the packing of p (a buffer being filled
      may be longer than p's packing; its further bytes are then zero). */
  ghost predicate Packs(bytes: seq<bv8>, p: seq<Nuc>)
  {
    forall b :: 0 <= b < |bytes| ==> bytes[b] == ByteAt(p, b)
  }

  /** Decodes position idx of a packed buffer: pair idx % 4 of byte idx / 4. */
  function DecodeAt(bytes: seq<bv8>, idx: nat): Nuc
    requires idx / 4 < |bytes|
  {
    FromCode(Field(bytes[idx / 4], idx % 4))
  }

  /** The upper-case text spelling a nucleotide sequence. */
  function ToText(ns: seq<Nuc>): (s: string)
  {
    seq(|ns|, k requires 0 <= k < |ns| => Letter(ns[k]))
  }

  /** Parses already upper-cased text left to right, stopping at the first character that
      names no nucleotide and reporting that character. */
  function ParseLetters(u: string): Result<seq<Nuc>, ParseNucError<char>>
  {
    if u == [] then Ok([])
    else
      match ParseLetters(u[..|u| - 1])
      case Err(e) => Err(e)
      case Ok(ns) =>
        match TryFromChar(u[|u| - 1])
        case Err(e) => Err(e)
        case Ok(n) => Ok(ns + [n])
  }

  /** Text parsing of a whole packed sequence: the text is upper-cased and parsed; on failure
      the error carries the whole upper-cased text. */
  function ParseText(s: string): Result<seq<Nuc>, ParseNucError<string>>
  {
    var upper := UpperStr(s);
    match ParseLetters(upper)
    case Ok(ns) => Ok(ns)
    case Err(_) => Err(ParseNucError(upper))
  }

  /** Within a group, pair j of the byte decodes to the code of element j. */
  lemma {:induction false} GroupDecode(g: seq<Nuc>, j: nat)
    requires |g| <= 4 && j < |g|
    ensures Field(PackGroup(g), j) == Code(g[j])
  {
    var m := |g| - 1;
    OrField(PackGroup(g[..m]), Code(g[m]), m, j);
    if j < m {
      GroupDecode(g[..m], j);
      assert g[..m][j] == g[j];
    }
  }

  /** Position idx of s is element idx % 4 of the group of byte idx / 4. */
  lemma GroupAt(s: seq<Nuc>, idx: nat)
    requires idx < |s|
    ensures 4 * (idx / 4) < |s| && idx % 4 < |Group(s, idx / 4)|
    ensures Group(s, idx / 4)[idx % 4] == s[idx]
  {
    var q, r := idx / 4, idx % 4;
    assert idx == 4 * q + r;
  }

  /** Decoding the packing of s at any index below |s| gives back s[idx]. */
  lemma PackRoundTrip(s: seq<Nuc>, idx: nat)
    requires idx < |s|
    ensures idx / 4 < |Pack(s)|
    ensures DecodeAt(Pack(s), idx) == s[idx]
  {
    GroupAt(s, idx);
    var b := idx / 4;
    assert Pack(s)[b] == PackGroup(Group(s, b));
    GroupDecode(Group(s, b), idx % 4);
  }

  /** Two sequences of the same length with the same packing are equal. */
  lemma PackInjective(s: seq<Nuc>, t: seq<Nuc>)
    requires |s| == |t| && Pack(s) == Pack(t)
    ensures s == t
  {
    forall idx | 0 <= idx < |s|
      ensures s[idx] == t[idx]
    {
      PackRoundTrip(s, idx);
      PackRoundTrip(t, idx);
    }
  }

  /** The buffer holds ceil(|s| / 4) bytes: never more than one byte per nucleotide, and
      fewer than four codes' room to spare. */
  lemma PackSize(s: seq<Nuc>)
    ensures |s| <= 4 * |Pack(s)| < |s| + 4
    ensures |Pack(s)| <= |s|
  {
  }

  /** The final byte of a non-empty buffer. */
  function Last(bytes: seq<bv8>): bv8
    requires |bytes| > 0
  {
    bytes[|bytes| - 1]
  }

  /** In the last byte, the bit pairs past the last code are zero. */
  lemma PaddingBitsZero(s: seq<Nuc>)
    requires |s| % 4 != 0
    ensures forall k :: |s| % 4 <= k < 4 ==> Field(Last(Pack(s)), k) == 0
  {
    var q, r := |s| / 4, |s| % 4;
    assert |s| == 4 * q + r && BytesFor(|s|) == q + 1;
    assert |Group(s, q)| == r;
    assert Pack(s)[q] == PackGroup(Group(s, q));
  }

  /** Appending x to p changes only byte |p| / 4 of the packing, which gains the code of x at
      pair |p| % 4. */
  lemma AppendStep(p: seq<Nuc>, x: Nuc, b: nat)
    ensures ByteAt(p + [x], b)
         == if b == |p| / 4 then ByteAt(p, b) | Slot(Code(x), |p| % 4) else ByteAt(p, b)
  {
    var s := p + [x];
    var q, r := |p| / 4, |p| % 4;
    assert |p| == 4 * q + r;
    if b == q {
      var g := p[4 * q ..];
      assert Group(s, q) == g + [x];
      assert (g + [x])[..r] == g;
      if r != 0 {
        assert Group(p, q) == g;
      }
    } else if b < q {
      assert 4 * b + 4 <= |p|;
      assert forall k :: 4 * b <= k < 4 * b + 4 ==> s[k] == p[k];
      assert Group(s, b) == p[4 * b .. 4 * b + 4] == Group(p, b);
    }
  }

  /** Pushing the code of x into the byte at |p| / 4 of a buffer that packs p gives a buffer
      that packs p + [x]. */
  lemma PushPacks(bytes: seq<bv8>, p: seq<Nuc>, x: Nuc)
    requires Packs(bytes, p) && |p| / 4 < |bytes|
    ensures Packs(bytes[|p| / 4 := bytes[|p| / 4] | Slot(Code(x), |p| % 4)], p + [x])
  {
    forall b | 0 <= b < |bytes|
      ensures bytes[|p| / 4 := bytes[|p| / 4] | Slot(Code(x), |p| % 4)][b] == ByteAt(p + [x], b)
    {
      AppendStep(p, x, b);
    }
  }

  /** A buffer of the right size that packs s is the packing of s. */
  lemma PacksWhole(bytes: seq<bv8>, s: seq<Nuc>)
    requires Packs(bytes, s) && |bytes| == BytesFor(|s|)
    ensures bytes == Pack(s)
  {
  }

  /** Parsing upper-cased text succeeds exactly when every character names a nucleotide; it
      then yields one nucleotide per character, in order, and otherwise reports the first
      character that does not. */
  lemma {:induction false} ParseLettersSpec(u: string)
    ensures ParseLetters(u).Ok? <==> forall k :: 0 <= k < |u| ==> IsNucLetter(u[k])
    ensures ParseLetters(u).Ok? ==>
              |ParseLetters(u).value| == |u| &&
              forall k :: 0 <= k < |u| ==> TryFromChar(u[k]) == Ok(ParseLetters(u).value[k])
    ensures ParseLetters(u).Err? ==>
              exists k :: 0 <= k < |u| && !IsNucLetter(u[k]) && ParseLetters(u).error == ParseNucError(u[k]) &&
                forall j :: 0 <= j < k ==> IsNucLetter(u[j])
  {
    if u != [] {
      var m := |u| - 1;
      var p := u[..m];
      ParseLettersSpec(p);
      assert forall k :: 0 <= k < m ==> p[k] == u[k];
      match ParseLetters(p)
      case Err(e) =>
        var k :| 0 <= k < |p| && !IsNucLetter(p[k]) && e == ParseNucError(p[k]) &&
                 forall j :: 0 <= j < k ==> IsNucLetter(p[j]);
        assert !IsNucLetter(u[k]);
      case Ok(ns) =>
        match TryFromChar(u[m])
        case Err(e) =>
          assert !IsNucLetter(u[m]);
        case Ok(n) =>
          var r := ns + [n];
          assert forall k :: 0 <= k < m ==> r[k] == ns[k];
    }
  }

  /** Text parsing of a packed sequence succeeds exactly when every character, ignoring ASCII
      case, names a nucleotide; it then agrees character by character with `TryFromChar`
      and keeps the length. Otherwise the error carries the upper-cased text. */
  lemma ParseTextSpec(s: string)
    ensures ParseText(s).Ok? <==> forall k :: 0 <= k < |s| ==> IsNucLetter(s[k])
    ensures ParseText(s).Ok? ==>
              |ParseText(s).value| == |s| &&
              forall k :: 0 <= k < |s| ==> TryFromChar(s[k]) == Ok(ParseText(s).value[k])
    ensures ParseText(s).Err? ==> ParseText(s).error == ParseNucError(UpperStr(s))
  {
    var u := UpperStr(s);
    ParseLettersSpec(u);
    if ParseLetters(u).Ok? {
      var ns := ParseLetters(u).value;
      forall k | 0 <= k < |s|
        ensures TryFromChar(s[k]) == Ok(ns[k])
      {
        assert TryFromChar(u[k]) == Ok(ns[k]);
        assert Letter(ns[k]) == ToAsciiUpper(s[k]);
      }
    }
  }

  /** Text construction and construction from nucleotides agree: if each character of s
      parses to the matching element of ns, text parsing yields exactly ns. */
  lemma TextAndNucPathsAgree(s: string, ns: seq<Nuc>)
    requires |ns| == |s|
    requires forall k :: 0 <= k < |s| ==> TryFromChar(s[k]) == Ok(ns[k])
    ensures ParseText(s) == Ok(ns)
  {
    ParseTextSpec(s);
    assert forall k :: 0 <= k < |s| ==> IsNucLetter(s[k]);
    var ps := ParseText(s).value;
    assert forall k :: 0 <= k < |s| ==> ps[k] == ns[k];
    assert ps == ns;
  }

  /** Text round trip: spelling a sequence and parsing it back gives the sequence; parsing
      valid text and spelling the result gives the text upper-cased. */
  lemma TextRoundTrip(ns: seq<Nuc>, s: string)
    ensures ParseText(ToText(ns)) == Ok(ns)
    ensures ParseText(s).Ok? ==> ToText(ParseText(s).value) == UpperStr(s)
  {
    var t := ToText(ns);
    forall k | 0 <= k < |t|
      ensures TryFromChar(t[k]) == Ok(ns[k])
    {
      match ns[k]
      case A =>
      case C =>
      case G =>
      case T =>
    }
    TextAndNucPathsAgree(t, ns);
    ParseTextSpec(s);
  }

  /** Pushes code number i into a buffer being filled: or-s it into pair i % 4 (bit offset
      (i % 4) * 2) of byte i / 4. A buffer that packed the i nucleotides before then packs them and x. */
  method Push(buf: array<bv8>, i: nat, code: bv8, ghost p: seq<Nuc>, ghost x: Nuc)
    requires i == |p| && i / 4 < buf.Length && code == Code(x)
    requires Packs(buf[..], p)
    modifies buf
    ensures Packs(buf[..], p + [x])
  {
    ghost var before := buf[..];
    PushPacks(before, p, x);
    buf[i / 4] := buf[i / 4] | Slot(code, i % 4);
    assert buf[..] == before[i / 4 := before[i / 4] | Slot(code, i % 4)];
  }

  /** Extending the prefix of length i by element i gives the prefix of length i + 1. */
  lemma PrefixStep(s: seq<Nuc>, i: nat)
    requires i < |s|
    ensures |s[..i]| == i && s[..i] + [s[i]] == s[..i + 1]
  {
  }

  /** A packed DNA sequence: a byte buffer holding four 2-bit codes per byte, plus the
      number of nucleotides it represents. */
  class PackedDna {
    const data: array<bv8>
    const len: nat
    /** The nucleotides represented, in order. */
    ghost var Contents: seq<Nuc>

    /** The buffer is exactly the packing of the contents, and the length is theirs. */
    ghost predicate Valid()
      reads this, data
    {
      |Contents| == len && data.Length == BytesFor(len) && data[..] == Pack(Contents)
    }

    /** The struct value built from a finished buffer and its length. */
    constructor Wrap(buf: array<bv8>, n: nat, ghost ns: seq<Nuc>)
      requires |ns| == n && buf[..] == Pack(ns)
      ensures Valid() && data == buf && Contents == ns && len == n
    {
      data, len, Contents := buf, n, ns;
    }

    /** Builds from a sequence of nucleotides; cannot fail. One code per element, in order. */
    constructor FromNucs(nucs: seq<Nuc>)
      ensures Valid() && fresh(data)
      ensures Contents == nucs && len == |nucs|
    {
      var buf := new bv8[BytesFor(|nucs|)](_ => 0);
      var i := 0;
      while i < |nucs|
        invariant 0 <= i <= |nucs|
        invariant Packs(buf[..], nucs[..i])
      {
        var code: bv8;
        match nucs[i] {
          case A => code := 0;
          case C => code := 1;
          case G => code := 2;
          case T => code := 3;
        }
        ghost var x := nucs[i];
        assert code == Code(x);
        PrefixStep(nucs, i);
        IndexInBuffer(i, |nucs|);
        Push(buf, i, code, nucs[..i], x);
        i := i + 1;
      }
      assert nucs[..i] == nucs;
      PacksWhole(buf[..], nucs);
      data, len, Contents := buf, |nucs|, nucs;
    }

    /** Parses text, ignoring ASCII case, stopping at the first character that names no
        nucleotide; the error then carries the whole upper-cased text. */
    static method FromStr(s: string) returns (r: Result<PackedDna, ParseNucError<string>>)
      ensures r.Err? ==> ParseText(s) == Err(r.error)
      ensures r.Ok? ==> ParseText(s) == Ok(r.value.Contents) && r.value.Valid() && r.value.len == |s|
      ensures r.Ok? ==> fresh(r.value) && fresh(r.value.data)
    {
      var upper := UpperStr(s);
      var buf := new bv8[BytesFor(|upper|)](_ => 0);
      ghost var parsed: seq<Nuc> := [];
      var i := 0;
      while i < |upper|
        invariant 0 <= i <= |upper| && |parsed| == i
        invariant ParseLetters(upper[..i]) == Ok(parsed)
        invariant Packs(buf[..], parsed)
      {
        var code: bv8;
        match upper[i] {
          case 'A' => code := 0;
          case 'C' => code := 1;
          case 'G' => code := 2;
          case 'T' => code := 3;
          case _ =>
            ParsePrefixErr(upper, i + 1);
            return Err(ParseNucError(upper));
        }
        ghost var n := FromCode(code);
        ParseStep(upper, i, parsed, n);
        IndexInBuffer(i, |upper|);
        Push(buf, i, code, parsed, n);
        parsed := parsed + [n];
        i := i + 1;
      }
      assert upper[..i] == upper;
      PacksWhole(buf[..], parsed);
      var p := new PackedDna.Wrap(buf, |upper|, parsed);
      r := Ok(p);
    }

    /** The nucleotide at position idx; indexing past the length is a bounds failure. */
    function Get(idx: nat): (n: Nuc)
      reads this, data
      requires Valid() && idx < len
      ensures n == Contents[idx]
    {
      PackRoundTrip(Contents, idx);
      FromCode(Field(data[idx / 4], idx % 4))
    }
  }

  /** Parsing one more letter of upper-cased text extends the parsed prefix by its nucleotide. */
  lemma ParseStep(u: string, i: nat, parsed: seq<Nuc>, n: Nuc)
    requires i < |u| && ParseLetters(u[..i]) == Ok(parsed)
    requires u[i] == Letter(n)
    ensures ParseLetters(u[..i + 1]) == Ok(parsed + [n])
  {
    assert u[..i + 1][..i] == u[..i];
  }

  /** Once parsing a prefix of the text has failed, parsing the whole text fails. */
  lemma {:induction false} ParsePrefixErr(u: string, i: nat)
    requires i <= |u| && ParseLetters(u[..i]).Err?
    ensures ParseLetters(u).Err?
    decreases |u| - i
  {
    if i < |u| {
      assert u[..i + 1][..i] == u[..i];
      ParsePrefixErr(u, i + 1);
    } else {
      assert u[..i] == u;
    }
  }
}
