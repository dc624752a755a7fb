/**
 * The range worker of a download (class PeerThread): it asks a serving peer
 * for one byte range of a file and copies what arrives into a part file whose
 * name is derived from the file name and the part index.
 */
module RangeWorker {
  import opened Wire
  import opened Storage

  /** Part index of a download that is not split. */
  const SINGLE_PART := -1
  /** Part index of the last range of a split download. */
  const FINAL_FILE_PART := -2

  function Digit(d: nat): (c: char)
    requires d < 10
    ensures '0' <= c <= '9'
  {
    ('0' as int + d) as char
  }

  /** Decimal digits of `n`, most significant first. */
  function Decimal(n: nat): (s: string)
    ensures 1 <= |s| && (|s| == 1 <==> n < 10)
    ensures forall i :: 0 <= i < |s| ==> '0' <= s[i] <= '9'
    decreases n
  {
    if n < 10 then [Digit(n)] else Decimal(n / 10) + [Digit(n % 10)]
  }

  /** The number a string of decimal digits denotes, most significant first. */
  function DigitsValue(s: string): nat
    requires forall i :: 0 <= i < |s| ==> '0' <= s[i] <= '9'
    decreases |s|
  {
    if s == [] then 0 else 10 * DigitsValue(s[..|s| - 1]) + (s[|s| - 1] as int - '0' as int)
  }

  /** `Decimal(n)` spells `n`: read back as digits it denotes `n`. */
  lemma {:induction false} DecimalValue(n: nat)
    ensures DigitsValue(Decimal(n)) == n
    decreases n
  {
    if 10 <= n {
      var s := Decimal(n);
      assert s[..|s| - 1] == Decimal(n / 10);
      DecimalValue(n / 10);
    }
  }

  lemma {:induction false} DecimalInjective(a: nat, b: nat)
    requires Decimal(a) == Decimal(b)
    ensures a == b
    decreases a
  {
    if 10 <= a {
      var da, db := Decimal(a / 10), Decimal(b / 10);
      assert Decimal(a)[..|da|] == da;
      assert Decimal(b)[..|db|] == db;
      assert |da| == |db|;
      assert Digit(a % 10) == Decimal(a)[|da|] == Decimal(b)[|db|] == Digit(b % 10);
      DecimalInjective(a / 10, b / 10);
    } else {
      assert Digit(a) == Digit(b);
    }
  }

  /** Java's string conversion of an int. */
  function IntString(i: int): (s: string)
    ensures 1 <= |s| && (s[0] == '-' || '0' <= s[0] <= '9')
  {
    if i < 0 then "-" + Decimal(-i) else Decimal(i)
  }

  lemma IntStringInjective(i: int, j: int)
    requires IntString(i) == IntString(j)
    ensures i == j
  {
    if i < 0 && j < 0 {
      assert IntString(i)[1..] == Decimal(-i);
      assert IntString(j)[1..] == Decimal(-j);
      DecimalInjective(-i, -j);
    } else if 0 <= i && 0 <= j {
      DecimalInjective(i, j);
    }
  }

  /** The part file a worker writes: the file itself, "_end", or "_<index>". */
  function PartFileName(fileName: string, filePart: int): (name: string)
    ensures filePart == SINGLE_PART ==> name == fileName
    ensures filePart != SINGLE_PART ==> |fileName| < |name| && name[..|fileName|] == fileName
    ensures filePart == FINAL_FILE_PART ==> name == fileName + "_end"
    ensures filePart != SINGLE_PART && filePart != FINAL_FILE_PART ==> name == fileName + "_" + IntString(filePart)
  {
    if filePart == SINGLE_PART then fileName
    else if filePart == FINAL_FILE_PART then fileName + "_end"
    else fileName + "_" + IntString(filePart)
  }

  /** Different parts of one file never share a part file. */
  lemma PartFileNameInjective(fileName: string, p: int, q: int)
    requires PartFileName(fileName, p) == PartFileName(fileName, q)
    ensures p == q
  {
    var n := |fileName|;
    if p != SINGLE_PART && q != SINGLE_PART {
      // both names are fileName + "_" + a suffix: "end" or the index's digits
      var sp := if p == FINAL_FILE_PART then "end" else IntString(p);
      var sq := if q == FINAL_FILE_PART then "end" else IntString(q);
      assert PartFileName(fileName, p)[n + 1..] == sp;
      assert PartFileName(fileName, q)[n + 1..] == sq;
      if p != FINAL_FILE_PART && q != FINAL_FILE_PART {
        IntStringInjective(p, q);
      }
    }
  }

  /** One download worker, bound to one accepted connection. */
  class PeerThread {
    const fileName: string
    const filePart: int
    const offset: int
    const requiredBytes: int
    const newFile: string

    constructor (fileName: string, filePart: int, offset: int, requiredBytes: int)
      ensures this.fileName == fileName && this.filePart == filePart
      ensures this.offset == offset && this.requiredBytes == requiredBytes
      ensures newFile == PartFileName(fileName, filePart)
    {
      this.fileName := fileName;
      this.filePart := filePart;
      this.offset := offset;
      this.requiredBytes := requiredBytes;
      if filePart == SINGLE_PART {
        newFile := fileName;
      } else {
        newFile := if filePart == FINAL_FILE_PART then fileName + "_end" else fileName + "_" + IntString(filePart);
      }
    }

    /**
     * Sends the request header, then creates the part file afresh and appends
     * each chunk read from the connection until a read returns nothing.
     * `results` are the chunks successive reads return.
     */
    method Run(disk: Disk, results: seq<Bytes>) returns (header: seq<Token>)
      modifies disk
      ensures header == RequestHeader(fileName, offset, requiredBytes)
      ensures disk.files == old(disk.files)[newFile := Received(results)]
    {
      header := [WriteUTF(fileName), WriteLong(offset), WriteLong(requiredBytes)];
      disk.files := disk.files[newFile := []];
      var k := 0;
      while k < |results| && results[k] != []
        invariant 0 <= k <= |results|
        invariant forall j :: 0 <= j < k ==> results[j] != []
        invariant disk.files == old(disk.files)[newFile := Concat(results[..k])]
      {
        disk.files := disk.files[newFile := disk.files[newFile] + results[k]];
        TakeOneMore(results, k);
        ConcatAppend(results[..k], results[k]);
        k := k + 1;
      }
      LeadingReadsAt(results, k);
    }
  }
}
