/** Reading a path out of the traced process, one eight-byte word at a time. */
module TraceeMemory {
  import opened Options
  import opened Paths

  /** User addresses of x86-64 end here; nothing above is readable. */
  const USER_TOP: nat := 0x8000_0000_0000

  /** The readable bytes of the tracee. */
  type Memory = m: map<nat, Byte> | forall a | a in m :: a < USER_TOP witness map[]

  // ---------- Words ----------

  function FromLe(bytes: seq<Byte>): nat {
    if bytes == [] then 0 else bytes[0] + 256 * FromLe(bytes[1..])
  }

  function ToLe(n: nat, width: nat): seq<Byte> {
    if width == 0 then [] else [n % 256] + ToLe(n / 256, width - 1)
  }

  const WORD: nat := 8
  const TWO_63: int := 0x8000_0000_0000_0000
  const TWO_64: int := 0x1_0000_0000_0000_0000

  function Power256(k: nat): nat {
    if k == 0 then 1 else 256 * Power256(k - 1)
  }

  lemma {:induction false} FromLeBound(bytes: seq<Byte>)
    ensures FromLe(bytes) < Power256(|bytes|)
  {
    if bytes != [] {
      FromLeBound(bytes[1..]);
    }
  }

  lemma DigitOf(b: Byte, rest: nat)
    ensures (b + 256 * rest) % 256 == b && (b + 256 * rest) / 256 == rest
  {
  }

  lemma {:induction false} LeRoundTrip(bytes: seq<Byte>)
    ensures ToLe(FromLe(bytes), |bytes|) == bytes
  {
    if bytes != [] {
      LeRoundTrip(bytes[1..]);
      DigitOf(bytes[0], FromLe(bytes[1..]));
      assert bytes == [bytes[0]] + bytes[1..];
    }
  }

  /** A word as the signed value `ptrace::read` returns, and `i64::to_le_bytes`. */
  function AsSigned(n: nat): int {
    if n < TWO_63 then n else n - TWO_64
  }

  function ToLeBytes(i: int): seq<Byte>
    requires -TWO_63 <= i < TWO_63
  {
    ToLe(if i < 0 then i + TWO_64 else i, WORD)
  }

  predicate Readable(m: Memory, address: nat) {
    forall a | address <= a < address + WORD :: a in m
  }

  function WordBytes(m: Memory, address: nat): (bytes: seq<Byte>)
    requires Readable(m, address)
    ensures |bytes| == WORD
  {
    seq(WORD, k requires 0 <= k < WORD => m[address + k])
  }

  lemma WordBound(m: Memory, address: nat)
    requires Readable(m, address)
    ensures FromLe(WordBytes(m, address)) < TWO_64
  {
    FromLeBound(WordBytes(m, address));
    assert Power256(8) == 256 * Power256(7);
    assert Power256(7) == 256 * Power256(6);
    assert Power256(6) == 256 * Power256(5);
    assert Power256(5) == 256 * Power256(4);
    assert Power256(4) == 256 * Power256(3);
    assert Power256(3) == 0x100_0000;
  }

  /** `ptrace::read`: the word at an address, or an error. */
  function Peek(m: Memory, address: nat): (r: Option<int>)
    ensures r.Some? ==> -TWO_63 <= r.value < TWO_63
  {
    if Readable(m, address) then
      WordBound(m, address);
      Some(AsSigned(FromLe(WordBytes(m, address))))
    else None
  }

  /** The bytes of a peeked word come back in memory order. */
  lemma PeekedBytes(m: Memory, address: nat)
    requires Readable(m, address)
    ensures ToLeBytes(Peek(m, address).value) == WordBytes(m, address)
  {
    WordBound(m, address);
    LeRoundTrip(WordBytes(m, address));
  }

  // ---------- Strings ----------

  /** The bytes up to a NUL or to the end of readable memory. */
  function CString(m: Memory, address: nat): seq<Byte>
    decreases USER_TOP - address
  {
    if address !in m || m[address] == 0 then [] else [m[address]] + CString(m, address + 1)
  }

  /** The string ends in a NUL rather than in unreadable memory. */
  predicate Terminated(m: Memory, address: nat) {
    address + |CString(m, address)| in m
  }

  /** Where the word with the end of the string starts. */
  function LastWord(m: Memory, address: nat): nat {
    address + |CString(m, address)| / 8 * 8
  }

  /** What reading by whole words can make of the string. */
  function PathAt(m: Memory, address: nat): Path {
    var s := CString(m, address);
    if Terminated(m, address) && Readable(m, LastWord(m, address)) then s
    else s[..|s| / 8 * 8]
  }

  lemma {:induction false} CStringSkip(m: Memory, address: nat, k: nat)
    requires forall a | address <= a < address + k :: a in m && m[a] != 0
    ensures CString(m, address) == seq(k, i requires 0 <= i < k => m[address + i]) + CString(m, address + k)
    decreases k
  {
    if k > 0 {
      CStringSkip(m, address + 1, k - 1);
    }
  }

  /** The position of the first NUL in a word, `bits.iter().position(..)`. */
  function NulPosition(bits: seq<Byte>): (r: Option<nat>)
    ensures r.Some? ==> r.value < |bits| && bits[r.value] == 0 && 0 !in bits[..r.value]
    ensures r.None? ==> 0 !in bits
  {
    if bits == [] then None
    else if bits[0] == 0 then Some(0)
    else
      match NulPosition(bits[1..])
      case None => None
      case Some(i) =>
        assert bits[..i + 1] == [bits[0]] + bits[1..][..i];
        Some(i + 1)
  }

  lemma StringEndsInWord(m: Memory, address: nat)
    requires Readable(m, address) && NulPosition(WordBytes(m, address)).Some?
    ensures PathAt(m, address) == WordBytes(m, address)[..NulPosition(WordBytes(m, address)).value]
  {
    var bits := WordBytes(m, address);
    var n := NulPosition(bits).value;
    forall a | address <= a < address + n ensures a in m && m[a] != 0 {
      assert bits[..n][a - address] == m[a];
    }
    CStringSkip(m, address, n);
    assert m[address + n] == bits[n] == 0;
    assert CString(m, address) == bits[..n];
    assert LastWord(m, address) == address;
  }

  lemma StringContinues(m: Memory, address: nat)
    requires Readable(m, address) && NulPosition(WordBytes(m, address)).None?
    ensures PathAt(m, address) == WordBytes(m, address) + PathAt(m, address + WORD)
  {
    var bits := WordBytes(m, address);
    forall a | address <= a < address + WORD ensures a in m && m[a] != 0 {
      assert bits[a - address] in bits;
    }
    CStringSkip(m, address, WORD);
    var s, t := CString(m, address), CString(m, address + WORD);
    assert s == bits + t;
    assert |s| / 8 * 8 == WORD + |t| / 8 * 8;
    assert s[..|s| / 8 * 8] == bits + t[..|t| / 8 * 8];
  }

  lemma UnreadableWord(m: Memory, address: nat)
    requires !Readable(m, address)
    ensures PathAt(m, address) == []
  {
    var s := CString(m, address);
    if |s| >= WORD {
      CStringMapped(m, address, WORD);
    } else {
      assert LastWord(m, address) == address;
    }
  }

  lemma {:induction false} CStringMapped(m: Memory, address: nat, k: nat)
    requires k <= |CString(m, address)|
    ensures forall a | address <= a < address + k :: a in m
    decreases k
  {
    if k > 0 {
      CStringMapped(m, address + 1, k - 1);
    }
  }

  /** What the next word adds. */
  lemma PathUnfold(m: Memory, address: nat)
    ensures PathAt(m, address) ==
            if !Readable(m, address) then []
            else
              match NulPosition(WordBytes(m, address))
              case Some(n) => WordBytes(m, address)[..n]
              case None => WordBytes(m, address) + PathAt(m, address + WORD)
  {
    if !Readable(m, address) {
      UnreadableWord(m, address);
    } else if NulPosition(WordBytes(m, address)).Some? {
      StringEndsInWord(m, address);
    } else {
      StringContinues(m, address);
    }
  }

  lemma Regroup(bytes: Path, bits: Path, rest: Path)
    ensures bytes + (bits + rest) == bytes + bits + rest
    ensures bytes + [] == bytes
  {
  }

  /** `read_path_from_register`: exactly the bytes before the first NUL when the word that
      holds the end of the string is readable, and the whole words before it otherwise. */
  method ReadPathFromRegister(m: Memory, address: nat) returns (path: Path)
    ensures path == PathAt(m, address)
  {
    var bytes: seq<Byte> := [];
    var count := 0;
    while true
      invariant PathAt(m, address) == bytes + PathAt(m, address + count)
      decreases USER_TOP + WORD - address - count
    {
      var at := address + count;
      PathUnfold(m, at);
      var word := Peek(m, at);
      if word.None? {
        Regroup(bytes, [], []);
        break;
      }
      PeekedBytes(m, at);
      var bits := ToLeBytes(word.value);
      var nul := NulPosition(bits);
      if nul.Some? {
        return bytes + bits[..nul.value];
      }
      Regroup(bytes, bits, PathAt(m, at + WORD));
      assert at in m;
      bytes := bytes + bits;
      count := count + WORD;
    }
    return bytes;
  }

  /** A terminated path is read in full exactly when its last word is readable, or when it
      fills its words so that the last one holds the NUL alone. */
  lemma PathReadInFull(m: Memory, address: nat)
    requires Terminated(m, address)
    ensures PathAt(m, address) == CString(m, address) <==>
            Readable(m, LastWord(m, address)) || |CString(m, address)| % 8 == 0
  {
    var s := CString(m, address);
    if !Readable(m, LastWord(m, address)) {
      assert |PathAt(m, address)| == |s| / 8 * 8;
      assert |s| % 8 == 0 ==> s[..|s|] == s;
    }
  }
}
