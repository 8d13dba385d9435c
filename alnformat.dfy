// The output helpers of general/alnStruct.h: the eqx line symbols that
// printAln writes under an alignment (eqxAddGap, eqxAddSMask, eqxAddSnp,
// eqxAddMatch) and the capping of a read id before it is printed
// (capIdLen).

module AlnFormat {
  import opened DataTypeShortHand

  datatype Option<T> = None | Some(value: T)

  /** The output format of an alignment (settings->formatFlag). The flag
    * values are not defined in the modelled headers, so any other value is
    * `OtherFormat`. */
  datatype Format = ExpandCig | Emboss | Clustal | Fasta | OtherFormat

  /** What an eqx column records. */
  datatype EqxOp = Ins | Del | SoftMask | Snp | Match

  const Space: uchar := 32

  /** The CIGAR operation a symbol stands for, as section 1.4 of the SAM
    * format specification defines the extended operations the expanded
    * cigar uses: `=` match, `X` mismatch, `I` insertion, `D` deletion,
    * `S` soft clip. */
  function CigarOp(c: uchar): (op: Option<EqxOp>)
    ensures op.Some? <==> c == Ch('=') || c == Ch('X') || c == Ch('I') || c == Ch('D') || c == Ch('S')
  {
    if c == Ch('=') then Some(Match)
    else if c == Ch('X') then Some(Snp)
    else if c == Ch('I') then Some(Ins)
    else if c == Ch('D') then Some(Del)
    else if c == Ch('S') then Some(SoftMask)
    else None
  }

  /** The symbol eqxAddGap leaves in the buffer character `buf`: an
    * insertion (`ins`) or a deletion in expanded cigar, a blank in EMBOSS
    * and Clustal, and the buffer untouched otherwise. */
  function EqxAddGap(ins: bool, buf: uchar, fmt: Format): (c: uchar)
    ensures fmt == ExpandCig ==> CigarOp(c) == Some(if ins then Ins else Del)
    ensures (fmt == Emboss || fmt == Clustal) ==> c == Space
    ensures (fmt == Fasta || fmt == OtherFormat) ==> c == buf
  {
    match fmt
    case ExpandCig => if ins then Ch('I') else Ch('D')
    case Emboss => Space
    case Clustal => Space
    case Fasta => buf
    case OtherFormat => buf
  }

  /** The symbol eqxAddSMask leaves: a soft clip in expanded cigar, a blank
    * in EMBOSS and Clustal. */
  function EqxAddSMask(buf: uchar, fmt: Format): (c: uchar)
    ensures fmt == ExpandCig ==> CigarOp(c) == Some(SoftMask)
    ensures (fmt == Emboss || fmt == Clustal) ==> c == Space
    ensures (fmt == Fasta || fmt == OtherFormat) ==> c == buf
  {
    match fmt
    case ExpandCig => Ch('S')
    case Emboss => Space
    case Clustal => Space
    case Fasta => buf
    case OtherFormat => buf
  }

  /** The symbol eqxAddSnp leaves: a mismatch in expanded cigar, a blank in
    * EMBOSS and Clustal. */
  function EqxAddSnp(buf: uchar, fmt: Format): (c: uchar)
    ensures fmt == ExpandCig ==> CigarOp(c) == Some(Snp)
    ensures (fmt == Emboss || fmt == Clustal) ==> c == Space
    ensures (fmt == Fasta || fmt == OtherFormat) ==> c == buf
  {
    match fmt
    case ExpandCig => Ch('X')
    case Emboss => Space
    case Clustal => Space
    case Fasta => buf
    case OtherFormat => buf
  }

  /** The symbol eqxAddMatch leaves: a match in expanded cigar, `|` in
    * EMBOSS and `*` in Clustal. */
  function EqxAddMatch(buf: uchar, fmt: Format): (c: uchar)
    ensures fmt == ExpandCig ==> CigarOp(c) == Some(Match)
    ensures (fmt == Emboss || fmt == Clustal) ==> c != Space
    ensures (fmt == Fasta || fmt == OtherFormat) ==> c == buf
  {
    match fmt
    case ExpandCig => Ch('=')
    case Emboss => Ch('|')
    case Clustal => Ch('*')
    case Fasta => buf
    case OtherFormat => buf
  }

  /** The eqx symbol printAln writes for one column. */
  function EqxAdd(op: EqxOp, buf: uchar, fmt: Format): uchar
  {
    match op
    case Ins => EqxAddGap(true, buf, fmt)
    case Del => EqxAddGap(false, buf, fmt)
    case SoftMask => EqxAddSMask(buf, fmt)
    case Snp => EqxAddSnp(buf, fmt)
    case Match => EqxAddMatch(buf, fmt)
  }

  /** An expanded cigar line decodes back, column by column, to the
    * operations it was written from. */
  lemma ExpandCigRoundTrip(ops: seq<EqxOp>, buf: seq<uchar>)
    requires |buf| == |ops|
    ensures var line := seq(|ops|, k requires 0 <= k < |ops| => EqxAdd(ops[k], buf[k], ExpandCig));
            forall k :: 0 <= k < |ops| ==> CigarOp(line[k]) == Some(ops[k])
  {
    var line := seq(|ops|, k requires 0 <= k < |ops| => EqxAdd(ops[k], buf[k], ExpandCig));
    forall k | 0 <= k < |ops|
      ensures CigarOp(line[k]) == Some(ops[k])
    {
      match ops[k]
      case Ins =>
      case Del =>
      case SoftMask =>
      case Snp =>
      case Match =>
    }
  }

  /** In EMBOSS and Clustal the eqx line marks exactly the matching
    * columns. */
  lemma MarksOnlyMatches(op: EqxOp, buf: uchar, fmt: Format)
    requires fmt == Emboss || fmt == Clustal
    ensures EqxAdd(op, buf, fmt) != Space <==> op == Match
  {
    match op
    case Ins =>
    case Del =>
    case SoftMask =>
    case Snp =>
    case Match =>
  }

  /** A byte capIdLen treats as part of a word: as a signed char it is
    * above 32, so bytes 128 to 255 (negative) count as white space. */
  predicate IsWord(b: uchar)
  {
    33 <= b as int <= 127
  }

  /** The signed char a byte reads as. */
  function SChar(b: uchar): (x: int)
    ensures -128 <= x <= 127
    ensures x > 32 <==> IsWord(b)
  {
    if b as int >= 128 then b as int - 256 else b as int
  }

  /** Index past a leading '>' or '@' header marker. */
  function HeaderSkip(id: seq<uchar>): (p: nat)
    ensures p <= 1 && (p == 1 <==> |id| > 0 && (id[0] == Ch('>') || id[0] == Ch('@')))
  {
    if |id| > 0 && (id[0] == Ch('>') || id[0] == Ch('@')) then 1 else 0
  }

  /** The first word byte at or after `i`. */
  function WordStart(id: seq<uchar>, i: nat): (p: nat)
    requires exists k :: i <= k < |id| && IsWord(id[k])
    ensures i <= p < |id| && IsWord(id[p])
    ensures forall k :: i <= k < p ==> !IsWord(id[k])
    decreases |id| - i
  {
    if IsWord(id[i]) then i
    else
      assert exists k :: i + 1 <= k < |id| && IsWord(id[k]);
      WordStart(id, i + 1)
  }

  /** The first byte at or after `i` that is not a word byte. */
  function WordEnd(id: seq<uchar>, i: nat): (p: nat)
    requires exists k :: i <= k < |id| && !IsWord(id[k])
    ensures i <= p < |id| && !IsWord(id[p])
    ensures forall k :: i <= k < p ==> IsWord(id[k])
    decreases |id| - i
  {
    if !IsWord(id[i]) then i
    else
      assert exists k :: i + 1 <= k < |id| && !IsWord(id[k]);
      WordEnd(id, i + 1)
  }

  /** What capIdLen needs of the id: a NUL-terminated buffer holding a
    * word byte after the header marker, and a positive cap. */
  ghost predicate CanCap(id: seq<uchar>, maxIdLen: int)
  {
    maxIdLen >= 1 && |id| >= 1 && id[|id| - 1] == 0
    && exists k :: HeaderSkip(id) <= k < |id| && IsWord(id[k])
  }

  /** Where capIdLen writes its NUL: at the end of the first word after the
    * header marker, or at maxIdLen - 1 when that end lies at maxIdLen or
    * beyond. */
  function CapPos(id: seq<uchar>, maxIdLen: int): (p: nat)
    requires CanCap(id, maxIdLen)
    ensures p < |id| && p < maxIdLen
  {
    var s := WordStart(id, HeaderSkip(id));
    assert !IsWord(id[|id| - 1]);
    var e := WordEnd(id, s);
    if e >= maxIdLen then maxIdLen - 1 else e
  }

  /** The capped id ends at the first white space after its first word, or
    * keeps maxIdLen - 1 bytes when that word is longer; everything it
    * keeps from the first word on is word bytes. */
  lemma CapPosMeaning(id: seq<uchar>, maxIdLen: int)
    requires CanCap(id, maxIdLen)
    ensures var s := WordStart(id, HeaderSkip(id));
            var p := CapPos(id, maxIdLen);
            (forall k :: s <= k < p ==> IsWord(id[k]))
            && (p == maxIdLen - 1 || (p < maxIdLen - 1 && !IsWord(id[p]) && s <= p))
  {
    var s := WordStart(id, HeaderSkip(id));
    assert !IsWord(id[|id| - 1]);
    var e := WordEnd(id, s);
  }

  /** capIdLen: caps the id at the first white space after its first word,
    * or at index maxIdLen - 1; returns the capped position and the byte the
    * NUL replaced. The two scans read the id as signed chars. */
  method CapIdLen(id: array<uchar>, maxIdLen: int) returns (pos: nat, oldChar: uchar)
    requires CanCap(id[..], maxIdLen)
    modifies id
    ensures pos == CapPos(old(id[..]), maxIdLen)
    ensures oldChar == old(id[pos]) && id[..] == old(id[..])[pos := 0]
  {
    ghost var s0 := id[..];
    var p := 0;
    if id[0] == Ch('>') || id[0] == Ch('@') {
      p := 1;
    }
    assert p == HeaderSkip(s0);
    ghost var ws := WordStart(s0, p);
    while SChar(id[p]) < 33
      invariant HeaderSkip(s0) <= p <= ws
      invariant ws == WordStart(s0, HeaderSkip(s0))
      decreases ws - p
    {
      p := p + 1;
    }
    assert !IsWord(s0[|s0| - 1]);
    ghost var we := WordEnd(s0, p);
    while SChar(id[p]) > 32
      invariant ws <= p <= we
      invariant we == WordEnd(s0, ws)
      decreases we - p
    {
      p := p + 1;
    }
    if p >= maxIdLen {
      p := maxIdLen - 1;
    }
    pos := p;
    oldChar := id[pos];
    id[pos] := 0;
  }
}
