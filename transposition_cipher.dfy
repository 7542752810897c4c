/** The keyed columnar transposition cipher of src/cipher/transposition_cipher.rs.
    Encryption pads the plaintext to a multiple of the key length, lays it out
    row by row in a matrix with one column per key byte, and reads the columns
    out in the order of a stable sort of the key bytes. Decryption refills the
    columns in the same order, flattens the matrix row by row and strips the
    padding. The padding strategy is fixed to PKCS#7. */
module TranspositionCipher {
  import opened Prelude
  import opened Cipher
  import Padding
  import Pkcs7
  import Arith

  // ---------------------------------------------------------------------------
  // get_sorted_key_indices
  // ---------------------------------------------------------------------------

  /** Column `i` is read before column `k`: the smaller key byte first, equal
      bytes in the order of their positions (the stable tie-break of `sort_by_key`). */
  predicate ReadsBefore(key: seq<u8>, i: nat, k: nat)
    requires i < |key| && k < |key|
  {
    key[i] < key[k] || (key[i] == key[k] && i < k)
  }

  /** Every entry of `s` is a column of `key`. */
  predicate Columns(key: seq<u8>, s: seq<nat>) {
    forall j :: 0 <= j < |s| ==> s[j] < |key|
  }

  /** `s` lists columns in strictly increasing `ReadsBefore` order. */
  predicate StablySorted(key: seq<u8>, s: seq<nat>)
    requires Columns(key, s)
  {
    forall j, k :: 0 <= j < k < |s| ==> ReadsBefore(key, s[j], s[k])
  }

  /** The indices `0, 1, .., n - 1` in ascending order. */
  function Range(n: nat): (r: seq<nat>)
    ensures |r| == n && forall i :: 0 <= i < n ==> r[i] == i
  {
    seq(n, i => i)
  }

  /** `perm` lists each of `0 .. |perm| - 1` exactly once. */
  predicate IsPermutation(perm: seq<nat>) {
    (forall j :: 0 <= j < |perm| ==> perm[j] < |perm|) &&
    (forall j, k :: 0 <= j < k < |perm| ==> perm[j] != perm[k]) &&
    (forall c: nat :: c < |perm| ==> c in perm)
  }

  /** Inserts column `i` in front of the first column that it is read before. */
  function Insert(key: seq<u8>, s: seq<nat>, i: nat): (r: seq<nat>)
    requires i < |key| && Columns(key, s) && StablySorted(key, s) && i !in s
    ensures |r| == |s| + 1 && multiset(r) == multiset(s) + multiset{i}
    ensures forall x :: x in r <==> x in s || x == i
    ensures Columns(key, r) && StablySorted(key, r)
    decreases |s|
  {
    if s == [] then [i]
    else if ReadsBefore(key, i, s[0]) then [i] + s
    else
      var t := Insert(key, s[1..], i);
      HeadBeforeAll(key, s, i, t);
      assert s == [s[0]] + s[1..];
      [s[0]] + t
  }

  /** When `i` goes after the head of `s`, the head is read before every entry
      of the tail with `i` inserted. */
  lemma HeadBeforeAll(key: seq<u8>, s: seq<nat>, i: nat, t: seq<nat>)
    requires |s| > 0 && i < |key| && Columns(key, s) && StablySorted(key, s) && i !in s
    requires !ReadsBefore(key, i, s[0])
    requires Columns(key, t) && forall x :: x in t <==> x in s[1..] || x == i
    ensures forall k :: 0 <= k < |t| ==> ReadsBefore(key, s[0], t[k])
  {
    forall k | 0 <= k < |t| ensures ReadsBefore(key, s[0], t[k]) {
      assert t[k] in t;
      if t[k] != i {
        var m :| 0 <= m < |s[1..]| && s[1..][m] == t[k];
        assert ReadsBefore(key, s[0], s[m + 1]);
      }
    }
  }

  /** The columns `0 .. m - 1`, sorted by insertion in ascending order of position. */
  function SortPrefix(key: seq<u8>, m: nat): (r: seq<nat>)
    requires m <= |key|
    ensures |r| == m && multiset(r) == multiset(Range(m))
    ensures forall c: nat :: c in r <==> c < m
    ensures Columns(key, r) && StablySorted(key, r)
  {
    if m == 0 then []
    else
      assert Range(m) == Range(m - 1) + [m - 1];
      Insert(key, SortPrefix(key, m - 1), m - 1)
  }

  /** `get_sorted_key_indices`: the column indices of `key`, sorted by key byte,
      equal bytes in ascending position. `sort_by_key` is a library stable sort;
      SortedKeyIndicesUnique shows that every stable sort yields this sequence. */
  function SortedKeyIndices(key: seq<u8>): (perm: seq<nat>)
    ensures |perm| == |key| && IsPermutation(perm)
    ensures multiset(perm) == multiset(Range(|key|))
    ensures forall j, k :: 0 <= j < k < |perm| ==> key[perm[j]] <= key[perm[k]]
    ensures forall j, k :: 0 <= j < k < |perm| && key[perm[j]] == key[perm[k]] ==> perm[j] < perm[k]
  {
    var perm := SortPrefix(key, |key|);
    assert forall j, k :: 0 <= j < k < |perm| ==> ReadsBefore(key, perm[j], perm[k]);
    perm
  }

  /** Any sequence of all the columns, sorted by key byte with ties in position
      order, is the one SortedKeyIndices computes. */
  lemma SortedKeyIndicesUnique(key: seq<u8>, s: seq<nat>)
    requires |s| == |key| && Columns(key, s)
    requires forall c: nat :: c < |key| ==> c in s
    requires forall j, k :: 0 <= j < k < |s| ==> key[s[j]] <= key[s[k]]
    requires forall j, k :: 0 <= j < k < |s| && key[s[j]] == key[s[k]] ==> s[j] < s[k]
    ensures s == SortedKeyIndices(key)
  {
    var perm := SortedKeyIndices(key);
    assert StablySorted(key, s) by {
      forall j, k | 0 <= j < k < |s| ensures ReadsBefore(key, s[j], s[k]) {
        if key[s[j]] == key[s[k]] { assert s[j] < s[k]; }
      }
    }
    assert StablySorted(key, perm);
    SortedUnique(key, s, perm);
  }

  /** The head of a strictly sorted sequence is read before every other entry. */
  lemma HeadIsFirst(key: seq<u8>, s: seq<nat>, x: nat)
    requires |s| > 0 && Columns(key, s) && StablySorted(key, s) && x in s
    ensures x == s[0] || ReadsBefore(key, s[0], x)
  {
    var k :| 0 <= k < |s| && s[k] == x;
    if k > 0 {
      assert ReadsBefore(key, s[0], s[k]);
    }
  }

  /** Two strictly `ReadsBefore`-sorted sequences with the same entries are equal. */
  lemma {:induction false} SortedUnique(key: seq<u8>, a: seq<nat>, b: seq<nat>)
    requires Columns(key, a) && Columns(key, b)
    requires StablySorted(key, a) && StablySorted(key, b)
    requires |a| == |b| && forall x :: x in a <==> x in b
    ensures a == b
    decreases |a|
  {
    if a != [] {
      HeadIsFirst(key, a, b[0]);
      HeadIsFirst(key, b, a[0]);
      assert a[0] == b[0];
      forall x ensures x in a[1..] <==> x in b[1..] {
        SortedTail(key, a, x);
        SortedTail(key, b, x);
      }
      SortedUnique(key, a[1..], b[1..]);
      assert a == [a[0]] + a[1..] && b == [b[0]] + b[1..];
    }
  }

  /** The tail of a strictly sorted sequence holds every entry except the head. */
  lemma SortedTail(key: seq<u8>, s: seq<nat>, x: nat)
    requires |s| > 0 && Columns(key, s) && StablySorted(key, s)
    ensures x in s[1..] <==> x in s && x != s[0]
  {
    if x in s[1..] {
      var k :| 0 <= k < |s[1..]| && s[1..][k] == x;
      assert ReadsBefore(key, s[0], s[k + 1]);
    }
    if x in s && x != s[0] {
      var k :| 0 <= k < |s| && s[k] == x;
      assert s[1..][k - 1] == x;
    }
  }

  // ---------------------------------------------------------------------------
  // create_transposition_matrix
  // ---------------------------------------------------------------------------

  function Min(a: nat, b: nat): nat {
    if a <= b then a else b
  }

  function Zeros(n: nat): (z: seq<u8>)
    ensures |z| == n && forall i :: 0 <= i < n ==> z[i] == 0
  {
    seq(n, _ => 0)
  }

  /** Every row of `matrix` has `width` cells. */
  predicate Rectangular(matrix: seq<seq<u8>>, width: nat) {
    forall row :: 0 <= row < |matrix| ==> |matrix[row]| == width
  }

  /** The matrix `create_transposition_matrix` builds: `data` cut into chunks of
      `width` bytes, each chunk a row, the last one filled up with zeros. */
  function TranspositionMatrix(data: seq<u8>, width: nat): (m: seq<seq<u8>>)
    requires width > 0
    ensures |m| == (|data| + width - 1) / width && Rectangular(m, width)
    decreases |data|
  {
    if |data| == 0 then
      Arith.DivModUnique(0, width - 1, width);
      []
    else
      var chunk := data[..Min(width, |data|)];
      RowCount(|data|, width);
      [chunk + Zeros(width - |chunk|)] + TranspositionMatrix(data[|chunk|..], width)
  }

  /** Where cell `col` of row `row` sits in a buffer stored row by row, `width` cells a row. */
  function FlatIndex(row: nat, col: nat, width: nat): nat {
    row * width + col
  }

  /** Cell `(row, col)` of the matrix is byte `FlatIndex(row, col, width)` of `data`,
      or 0 past its end. */
  lemma {:induction false} TranspositionMatrixAt(data: seq<u8>, width: nat, row: nat, col: nat)
    requires width > 0 && row < |TranspositionMatrix(data, width)| && col < width
    ensures TranspositionMatrix(data, width)[row][col] ==
              if FlatIndex(row, col, width) < |data| then data[FlatIndex(row, col, width)] else 0
    decreases |data|
  {
    var chunk := data[..Min(width, |data|)];
    if row > 0 {
      TranspositionMatrixAt(data[|chunk|..], width, row - 1, col);
      assert FlatIndex(row - 1, col, width) + width == FlatIndex(row, col, width);
    }
  }

  /** The cell formula for every cell. */
  lemma TranspositionMatrixCells(data: seq<u8>, width: nat)
    requires width > 0
    ensures var m := TranspositionMatrix(data, width);
            forall row, col :: 0 <= row < |m| && 0 <= col < width ==>
              m[row][col] == if FlatIndex(row, col, width) < |data| then data[FlatIndex(row, col, width)] else 0
  {
    var m := TranspositionMatrix(data, width);
    forall row, col | 0 <= row < |m| && 0 <= col < width
      ensures m[row][col] == if FlatIndex(row, col, width) < |data| then data[FlatIndex(row, col, width)] else 0
    {
      TranspositionMatrixAt(data, width, row, col);
    }
  }

  /** Cutting off one row of `width` bytes removes one row from the count. */
  lemma RowCount(n: nat, width: nat)
    requires 0 < n && width > 0
    ensures (n + width - 1) / width == 1 + (n - Min(width, n) + width - 1) / width
  {
    if n <= width {
      assert n + width - 1 == 1 * width + (n - 1);
      Arith.DivModUnique(1, n - 1, width);
      Arith.DivModUnique(0, width - 1, width);
    } else {
      assert n + width - 1 == (n - 1) + width;
      Arith.DivPlusOne(n - 1, width);
    }
  }

  /** `create_transposition_matrix`: each chunk is copied into a zeroed row of
      `column_size` cells, and the row is pushed onto the matrix. */
  method CreateTranspositionMatrix(data: seq<u8>, columnSize: nat) returns (matrix: seq<seq<u8>>)
    requires columnSize > 0
    ensures matrix == TranspositionMatrix(data, columnSize)
  {
    matrix := [];
    var rest := data;
    while |rest| > 0
      invariant matrix + TranspositionMatrix(rest, columnSize) == TranspositionMatrix(data, columnSize)
      decreases |rest|
    {
      var chunk := rest[..Min(columnSize, |rest|)];
      var row := new u8[columnSize](_ => 0);
      forall i | 0 <= i < |chunk| {
        row[i] := chunk[i];
      }
      assert row[..] == chunk + Zeros(columnSize - |chunk|);
      ghost var tail := TranspositionMatrix(rest[|chunk|..], columnSize);
      assert TranspositionMatrix(rest, columnSize) == [row[..]] + tail;
      assert (matrix + [row[..]]) + tail == matrix + ([row[..]] + tail);
      matrix := matrix + [row[..]];
      rest := rest[|chunk|..];
    }
  }

  // ---------------------------------------------------------------------------
  // encrypt
  // ---------------------------------------------------------------------------

  /** Column `col` of `matrix`, top to bottom (`matrix.iter().map(|row| row[index])`). */
  function Column(matrix: seq<seq<u8>>, col: nat): (c: seq<u8>)
    requires forall row :: 0 <= row < |matrix| ==> col < |matrix[row]|
    ensures |c| == |matrix| && forall row :: 0 <= row < |matrix| ==> c[row] == matrix[row][col]
  {
    seq(|matrix|, row requires 0 <= row < |matrix| => matrix[row][col])
  }

  /** The `flat_map` of `encrypt`: the columns listed in `order`, one after another. */
  function ReadColumns(matrix: seq<seq<u8>>, width: nat, order: seq<nat>): (ct: seq<u8>)
    requires Rectangular(matrix, width) && forall j :: 0 <= j < |order| ==> order[j] < width
    ensures |ct| == |order| * |matrix|
    decreases |order|
  {
    if order == [] then []
    else Column(matrix, order[0]) + ReadColumns(matrix, width, order[1..])
  }

  /** Where cell `row` of the `j`-th column sits when columns of `rows` cells
      are stored one after another. */
  function CipherIndex(j: nat, row: nat, rows: nat): nat {
    j * rows + row
  }

  /** Byte `CipherIndex(j, row, rows)` of the column read is cell `row` of the
      `j`-th listed column. */
  lemma {:induction false} ReadColumnsAt(matrix: seq<seq<u8>>, width: nat, order: seq<nat>, j: nat, row: nat)
    requires Rectangular(matrix, width) && forall i :: 0 <= i < |order| ==> order[i] < width
    requires j < |order| && row < |matrix|
    ensures CipherIndex(j, row, |matrix|) < |ReadColumns(matrix, width, order)|
    ensures ReadColumns(matrix, width, order)[CipherIndex(j, row, |matrix|)] == matrix[row][order[j]]
    decreases j
  {
    Arith.CellBound(j, row, |order|, |matrix|);
    if j > 0 {
      ReadColumnsAt(matrix, width, order[1..], j - 1, row);
      assert CipherIndex(j - 1, row, |matrix|) + |matrix| == CipherIndex(j, row, |matrix|);
    }
  }

  /** `encrypt`: refuse an empty key, pad the plaintext to a multiple of the key
      length (padding errors come back wrapped), lay it out in the matrix and
      read the columns in sorted-key order. */
  function Encrypt(plaintext: seq<u8>, key: seq<u8>): (r: Result<seq<u8>, CipherOperationError>)
    ensures |key| == 0 ==> r == Err(InvalidKeySize(0))
    ensures |key| > 0 && r.Err? ==> r == Err(PaddingValidationError(Padding.ParameterError))
    ensures r.Ok? <==> |plaintext| > 0 && 0 < |key| <= 255
    ensures r.Ok? ==> |r.value| % |key| == 0 && |plaintext| < |r.value| <= |plaintext| + |key|
  {
    if |key| == 0 then
      Err(InvalidKeySize(0))
    else
      match Pkcs7.ApplyPadding(plaintext, |key|)
      case Err(e) => Err(PaddingValidationError(e))
      case Ok(padded) =>
        var matrix := TranspositionMatrix(padded, |key|);
        var order := SortedKeyIndices(key);
        FullRows(|padded|, |key|);
        Ok(ReadColumns(matrix, |key|, order))
  }

  /** A length that is a multiple of the width fills its rows exactly. */
  lemma FullRows(n: nat, width: nat)
    requires width > 0 && n % width == 0
    ensures (n + width - 1) / width == n / width && width * (n / width) == n
  {
    Arith.DivModUnique(n / width, width - 1, width);
  }

  /** The bytes of `flat`, laid out in rows of `|perm|` and read column by column
      in the order `perm`: cell `row` of the `j`-th column read is cell
      `(row, perm[j])` of the row-major buffer. */
  lemma TransposeAt(flat: seq<u8>, perm: seq<nat>, j: nat, row: nat)
    requires |perm| > 0 && |flat| % |perm| == 0 && forall i :: 0 <= i < |perm| ==> perm[i] < |perm|
    requires j < |perm| && row < |flat| / |perm|
    ensures var n, rows := |perm|, |flat| / |perm|;
            var ct := ReadColumns(TranspositionMatrix(flat, n), n, perm);
            |ct| == |flat| && CipherIndex(j, row, rows) < |ct| && FlatIndex(row, perm[j], n) < |flat| &&
            ct[CipherIndex(j, row, rows)] == flat[FlatIndex(row, perm[j], n)]
  {
    var n, rows := |perm|, |flat| / |perm|;
    FullRows(|flat|, n);
    var matrix := TranspositionMatrix(flat, n);
    assert |matrix| == rows;
    var ct := ReadColumns(matrix, n, perm);
    assert |ct| == |flat|;
    ReadColumnsAt(matrix, n, perm, j, row);
    assert ct[CipherIndex(j, row, rows)] == matrix[row][perm[j]];
    Arith.CellBound(row, perm[j], rows, n);
    assert FlatIndex(row, perm[j], n) < |flat|;
    TranspositionMatrixAt(flat, n, row, perm[j]);
  }

  /** TransposeAt for every cell. */
  lemma TransposeCells(flat: seq<u8>, perm: seq<nat>)
    requires |perm| > 0 && |flat| % |perm| == 0 && forall i :: 0 <= i < |perm| ==> perm[i] < |perm|
    ensures var n, rows := |perm|, |flat| / |perm|;
            var ct := ReadColumns(TranspositionMatrix(flat, n), n, perm);
            |ct| == |flat| == rows * n &&
            forall j, row :: 0 <= j < n && 0 <= row < rows ==>
              CipherIndex(j, row, rows) < |ct| && FlatIndex(row, perm[j], n) < |flat| &&
              ct[CipherIndex(j, row, rows)] == flat[FlatIndex(row, perm[j], n)]
  {
    var n, rows := |perm|, |flat| / |perm|;
    FullRows(|flat|, n);
    assert |TranspositionMatrix(flat, n)| == rows;
    forall j, row | 0 <= j < n && 0 <= row < rows
      ensures var ct := ReadColumns(TranspositionMatrix(flat, n), n, perm);
              CipherIndex(j, row, rows) < |ct| && FlatIndex(row, perm[j], n) < |flat| &&
              ct[CipherIndex(j, row, rows)] == flat[FlatIndex(row, perm[j], n)]
    {
      TransposeAt(flat, perm, j, row);
    }
  }

  /** What `encrypt` promises: with `perm` the sorted key indices, `n = |key|`
      and `rows = |padded| / n`, the ciphertext holds, at position `j * rows + row`,
      byte `row * n + perm[j]` of the padded plaintext. */
  lemma EncryptReadsSortedColumns(plaintext: seq<u8>, key: seq<u8>)
    requires Encrypt(plaintext, key).Ok?
    ensures var ct, padded := Encrypt(plaintext, key).value, Pkcs7.ApplyPadding(plaintext, |key|).value;
            var n, perm := |key|, SortedKeyIndices(key);
            var rows := |padded| / n;
            |ct| == |padded| == rows * n &&
            forall j, row :: 0 <= j < n && 0 <= row < rows ==>
              CipherIndex(j, row, rows) < |ct| && FlatIndex(row, perm[j], n) < |padded| &&
              ct[CipherIndex(j, row, rows)] == padded[FlatIndex(row, perm[j], n)]
  {
    var padded := Pkcs7.ApplyPadding(plaintext, |key|).value;
    assert Encrypt(plaintext, key).value == ReadColumns(TranspositionMatrix(padded, |key|), |key|, SortedKeyIndices(key));
    TransposeCells(padded, SortedKeyIndices(key));
  }

  // ---------------------------------------------------------------------------
  // encrypt rearranges the padded bytes
  // ---------------------------------------------------------------------------

  /** The rows of `matrix`, one after another. */
  function Flatten(matrix: seq<seq<u8>>): seq<u8> {
    if matrix == [] then [] else Flatten(matrix[..|matrix| - 1]) + matrix[|matrix| - 1]
  }

  lemma {:induction false} FlattenConcat(a: seq<seq<u8>>, b: seq<seq<u8>>)
    ensures Flatten(a + b) == Flatten(a) + Flatten(b)
    decreases |b|
  {
    if b == [] {
      assert a + b == a;
    } else {
      var b' := b[..|b| - 1];
      assert (a + b)[..|a + b| - 1] == a + b';
      FlattenConcat(a, b');
    }
  }

  /** Flattening the matrix of a block-aligned buffer gives the buffer back. */
  lemma {:induction false} FlattenMatrix(data: seq<u8>, width: nat)
    requires width > 0 && |data| % width == 0
    ensures Flatten(TranspositionMatrix(data, width)) == data
    decreases |data|
  {
    if |data| > 0 {
      assert width <= |data| by { Arith.MultipleAtLeast(|data|, width); }
      var rest := data[width..];
      Arith.MultipleMinus(|data|, width);
      calc {
        Flatten(TranspositionMatrix(data, width));
        { FirstRowFull(data, width); }
        Flatten([data[..width]] + TranspositionMatrix(rest, width));
        { FlattenConcat([data[..width]], TranspositionMatrix(rest, width)); }
        Flatten([data[..width]]) + Flatten(TranspositionMatrix(rest, width));
        { FlattenOne(data[..width]); FlattenMatrix(rest, width); }
        data[..width] + rest;
        { assert data == data[..width] + rest; }
        data;
      }
    }
  }

  /** A buffer of at least `width` bytes has its first `width` bytes, unpadded, as first row. */
  lemma FirstRowFull(data: seq<u8>, width: nat)
    requires 0 < width <= |data|
    ensures TranspositionMatrix(data, width) == [data[..width]] + TranspositionMatrix(data[width..], width)
  {
    assert Min(width, |data|) == width;
    assert data[..width] + Zeros(0) == data[..width];
  }

  lemma FlattenOne(row: seq<u8>)
    ensures Flatten([row]) == row
  {
    assert [row][..0] == [];
  }

  lemma {:induction false} ReadColumnsConcat(matrix: seq<seq<u8>>, width: nat, a: seq<nat>, b: seq<nat>)
    requires Rectangular(matrix, width)
    requires forall j :: 0 <= j < |a| ==> a[j] < width
    requires forall j :: 0 <= j < |b| ==> b[j] < width
    ensures ReadColumns(matrix, width, a + b) == ReadColumns(matrix, width, a) + ReadColumns(matrix, width, b)
    decreases |a|
  {
    if a == [] {
      assert a + b == b;
    } else {
      assert (a + b)[1..] == a[1..] + b;
      ReadColumnsConcat(matrix, width, a[1..], b);
    }
  }

  /** Reading the columns in two orders that list the same columns yields the same bytes. */
  lemma {:induction false} ReadColumnsReorder(matrix: seq<seq<u8>>, width: nat, a: seq<nat>, b: seq<nat>)
    requires Rectangular(matrix, width)
    requires forall j :: 0 <= j < |a| ==> a[j] < width
    requires forall j :: 0 <= j < |b| ==> b[j] < width
    requires multiset(a) == multiset(b)
    ensures multiset(ReadColumns(matrix, width, a)) == multiset(ReadColumns(matrix, width, b))
    decreases |a|
  {
    if a == [] {
      assert |b| == |multiset(b)| == 0;
    } else {
      assert a[0] in multiset(b);
      var k :| 0 <= k < |b| && b[k] == a[0];
      var b' := b[..k] + b[k + 1..];
      RemoveMatching(a, b, k);
      ReadColumnsReorder(matrix, width, a[1..], b');
      ReadColumnsWithout(matrix, width, b, k);
    }
  }

  /** Removing the head of `a` and a matching entry of `b` keeps the multisets equal. */
  lemma RemoveMatching(a: seq<nat>, b: seq<nat>, k: nat)
    requires |a| > 0 && k < |b| && b[k] == a[0] && multiset(a) == multiset(b)
    ensures multiset(a[1..]) == multiset(b[..k] + b[k + 1..])
  {
    var x := a[0];
    assert b == b[..k] + [x] + b[k + 1..];
    assert multiset(b) == multiset(b[..k]) + multiset{x} + multiset(b[k + 1..]);
    assert a == [x] + a[1..];
    assert multiset(a) == multiset{x} + multiset(a[1..]);
    var b' := b[..k] + b[k + 1..];
    assert multiset(b') == multiset(b[..k]) + multiset(b[k + 1..]);
    assert multiset{x} + multiset(a[1..]) == multiset{x} + multiset(b');
    assert forall y :: multiset(a[1..])[y] == multiset(b')[y] by {
      forall y ensures multiset(a[1..])[y] == multiset(b')[y] {
        assert (multiset{x} + multiset(a[1..]))[y] == (multiset{x} + multiset(b'))[y];
      }
    }
  }

  /** The bytes read in order `b` are those of column `b[k]` and those read without it. */
  lemma ReadColumnsWithout(matrix: seq<seq<u8>>, width: nat, b: seq<nat>, k: nat)
    requires Rectangular(matrix, width) && k < |b|
    requires forall j :: 0 <= j < |b| ==> b[j] < width
    ensures multiset(ReadColumns(matrix, width, b)) ==
            multiset(Column(matrix, b[k])) + multiset(ReadColumns(matrix, width, b[..k] + b[k + 1..]))
  {
    var x := b[k];
    assert b == b[..k] + [x] + b[k + 1..];
    ReadColumnsConcat(matrix, width, b[..k], b[k + 1..]);
    ReadColumnsConcat(matrix, width, b[..k] + [x], b[k + 1..]);
    ReadColumnsConcat(matrix, width, b[..k], [x]);
    assert ReadColumns(matrix, width, [x]) == Column(matrix, x);
  }

  /** The cells of `row` named by `order`, in that order. */
  function Pick(row: seq<u8>, order: seq<nat>): (p: seq<u8>)
    requires forall j :: 0 <= j < |order| ==> order[j] < |row|
    ensures |p| == |order|
  {
    seq(|order|, j requires 0 <= j < |order| => row[order[j]])
  }

  /** Adding a last row adds, to the bytes read, that row's cells in `order`. */
  lemma {:induction false} ReadColumnsAddRow(matrix: seq<seq<u8>>, last: seq<u8>, width: nat, order: seq<nat>)
    requires Rectangular(matrix, width) && |last| == width
    requires forall j :: 0 <= j < |order| ==> order[j] < width
    ensures Rectangular(matrix + [last], width)
    ensures multiset(ReadColumns(matrix + [last], width, order)) ==
            multiset(ReadColumns(matrix, width, order)) + multiset(Pick(last, order))
    decreases |order|
  {
    if order != [] {
      ReadColumnsAddRow(matrix, last, width, order[1..]);
      assert Column(matrix + [last], order[0]) == Column(matrix, order[0]) + [last[order[0]]];
      assert Pick(last, order) == [last[order[0]]] + Pick(last, order[1..]);
    }
  }

  /** Reading every column in ascending order yields the bytes of the flattened matrix. */
  lemma {:induction false} ReadAllColumns(matrix: seq<seq<u8>>, width: nat)
    requires Rectangular(matrix, width)
    ensures multiset(ReadColumns(matrix, width, Range(width))) == multiset(Flatten(matrix))
    decreases |matrix|
  {
    if matrix == [] {
      assert |ReadColumns(matrix, width, Range(width))| == width * 0 == 0;
    } else {
      var init, last := matrix[..|matrix| - 1], matrix[|matrix| - 1];
      assert matrix == init + [last];
      ReadAllColumns(init, width);
      ReadColumnsAddRow(init, last, width, Range(width));
      assert Pick(last, Range(width)) == last;
    }
  }

  /** `encrypt` neither loses nor invents bytes: the ciphertext is a
      rearrangement of the padded plaintext. */
  lemma EncryptIsRearrangement(plaintext: seq<u8>, key: seq<u8>)
    requires Encrypt(plaintext, key).Ok?
    ensures multiset(Encrypt(plaintext, key).value) == multiset(Pkcs7.ApplyPadding(plaintext, |key|).value)
  {
    var n := |key|;
    var padded := Pkcs7.ApplyPadding(plaintext, n).value;
    var matrix := TranspositionMatrix(padded, n);
    var perm := SortedKeyIndices(key);
    ReadColumnsReorder(matrix, n, perm, Range(n));
    ReadAllColumns(matrix, n);
    FlattenMatrix(padded, n);
  }

  // ---------------------------------------------------------------------------
  // decrypt
  // ---------------------------------------------------------------------------

  /** The position of `x` in `s`. */
  function IndexOf(s: seq<nat>, x: nat): (j: nat)
    requires x in s
    ensures j < |s| && s[j] == x && forall k :: 0 <= k < j ==> s[k] != x
  {
    if s[0] == x then 0 else 1 + IndexOf(s[1..], x)
  }

  /** Cell `row` of the `j`-th column of a ciphertext of `n` columns. */
  function CipherByte(ct: seq<u8>, n: nat, j: nat, row: nat): u8
    requires n > 0 && |ct| % n == 0 && j < n && row < |ct| / n
  {
    Arith.CellBound(j, row, n, |ct| / n);
    ct[CipherIndex(j, row, |ct| / n)]
  }

  /** The row-major buffer `decrypt` rebuilds, by its cells: see UntransposeAt. */
  function Untranspose(ct: seq<u8>, perm: seq<nat>): (flat: seq<u8>)
    requires |perm| > 0 && |ct| % |perm| == 0 && forall c: nat :: c < |perm| ==> c in perm
    ensures |flat| == |ct|
  {
    var n := |perm|;
    seq(|ct|, k requires 0 <= k < |ct| =>
      Arith.SplitIndex(k, |ct| / n, n);
      CipherByte(ct, n, IndexOf(perm, k % n), k / n))
  }

  /** Cell `c` of row `row` of the rebuilt buffer is cell `row` of the column
      that was read at position `IndexOf(perm, c)`. */
  lemma UntransposeAt(ct: seq<u8>, perm: seq<nat>, row: nat, c: nat)
    requires |perm| > 0 && |ct| % |perm| == 0 && forall c: nat :: c < |perm| ==> c in perm
    requires row < |ct| / |perm| && c < |perm|
    ensures FlatIndex(row, c, |perm|) < |ct|
    ensures Untranspose(ct, perm)[FlatIndex(row, c, |perm|)] == CipherByte(ct, |perm|, IndexOf(perm, c), row)
  {
    var n := |perm|;
    FullRows(|ct|, n);
    Arith.CellBound(row, c, |ct| / n, n);
    Arith.PositionParts(row, c, n);
  }

  /** Two buffers of `rows * width` bytes that agree on every cell are equal. */
  lemma EqualByCells(a: seq<u8>, b: seq<u8>, rows: nat, width: nat)
    requires width > 0 && |a| == |b| == rows * width
    requires forall row, col :: 0 <= row < rows && 0 <= col < width ==>
               FlatIndex(row, col, width) < |a| && a[FlatIndex(row, col, width)] == b[FlatIndex(row, col, width)]
    ensures a == b
  {
    forall k | 0 <= k < |a| ensures a[k] == b[k] {
      Arith.SplitIndex(k, rows, width);
      assert k == FlatIndex(k / width, k % width, width);
    }
  }

  /** Two buffers of `n` columns of `rows` bytes that agree on every column cell are equal. */
  lemma EqualByColumns(a: seq<u8>, b: seq<u8>, n: nat, rows: nat)
    requires rows > 0 && |a| == |b| == n * rows
    requires forall j, row :: 0 <= j < n && 0 <= row < rows ==>
               CipherIndex(j, row, rows) < |a| && a[CipherIndex(j, row, rows)] == b[CipherIndex(j, row, rows)]
    ensures a == b
  {
    forall k | 0 <= k < |a| ensures a[k] == b[k] {
      Arith.SplitIndex(k, n, rows);
      assert k == CipherIndex(k / rows, k % rows, rows);
    }
  }

  /** Untranspose undoes the column read of `encrypt`, for any permutation of the columns. */
  lemma UntransposeTranspose(flat: seq<u8>, perm: seq<nat>)
    requires |perm| > 0 && |flat| % |perm| == 0 && IsPermutation(perm)
    ensures var ct := ReadColumns(TranspositionMatrix(flat, |perm|), |perm|, perm);
            |ct| % |perm| == 0 && Untranspose(ct, perm) == flat
  {
    var n, rows := |perm|, |flat| / |perm|;
    FullRows(|flat|, n);
    var ct := ReadColumns(TranspositionMatrix(flat, n), n, perm);
    assert |ct| == |flat|;
    var u := Untranspose(ct, perm);
    forall row, c | 0 <= row < rows && 0 <= c < n
      ensures FlatIndex(row, c, n) < |u| && u[FlatIndex(row, c, n)] == flat[FlatIndex(row, c, n)]
    {
      var j := IndexOf(perm, c);
      UntransposeAt(ct, perm, row, c);
      TransposeAt(flat, perm, j, row);
    }
    EqualByCells(u, flat, rows, n);
  }

  /** And the column read undoes Untranspose: together, the two are inverse bijections. */
  lemma TransposeUntranspose(ct: seq<u8>, perm: seq<nat>)
    requires |perm| > 0 && |ct| % |perm| == 0 && IsPermutation(perm)
    ensures var flat := Untranspose(ct, perm);
            |flat| % |perm| == 0 && ReadColumns(TranspositionMatrix(flat, |perm|), |perm|, perm) == ct
  {
    var n, rows := |perm|, |ct| / |perm|;
    FullRows(|ct|, n);
    var flat := Untranspose(ct, perm);
    var back := ReadColumns(TranspositionMatrix(flat, n), n, perm);
    if rows > 0 {
      TransposeAt(flat, perm, 0, 0);
      forall j, row | 0 <= j < n && 0 <= row < rows
        ensures CipherIndex(j, row, rows) < |back| && back[CipherIndex(j, row, rows)] == ct[CipherIndex(j, row, rows)]
      {
        TransposeAt(flat, perm, j, row);
        UntransposeAt(ct, perm, row, perm[j]);
        assert IndexOf(perm, perm[j]) == j;
      }
      EqualByColumns(back, ct, n, rows);
    } else {
      assert |back| == n * |TranspositionMatrix(flat, n)| == 0;
    }
  }

  /** The matrix flattened row by row (`matrix.into_iter().flatten()`). */
  function FlattenRows(matrix: array2<u8>): (flat: seq<u8>)
    reads matrix
    ensures |flat| == matrix.Length0 * matrix.Length1
    ensures forall row, col :: 0 <= row < matrix.Length0 && 0 <= col < matrix.Length1 ==>
              FlatIndex(row, col, matrix.Length1) < |flat| && flat[FlatIndex(row, col, matrix.Length1)] == matrix[row, col]
  {
    var rows, width := matrix.Length0, matrix.Length1;
    var flat := seq(rows * width, k requires 0 <= k < rows * width reads matrix =>
      Arith.SplitIndex(k, rows, width);
      matrix[k / width, k % width]);
    assert forall row, col :: 0 <= row < rows && 0 <= col < width ==>
             FlatIndex(row, col, width) < |flat| && flat[FlatIndex(row, col, width)] == matrix[row, col] by {
      forall row, col | 0 <= row < rows && 0 <= col < width
        ensures FlatIndex(row, col, width) < |flat| && flat[FlatIndex(row, col, width)] == matrix[row, col]
      {
        Arith.CellBound(row, col, rows, width);
        Arith.PositionParts(row, col, width);
      }
    }
    flat
  }

  /** A `rows x n` matrix whose every cell holds the ciphertext byte that `decrypt`
      copies there flattens to Untranspose of the ciphertext. */
  lemma FilledMatrixFlattens(matrix: array2<u8>, ct: seq<u8>, perm: seq<nat>)
    requires |perm| > 0 && |ct| % |perm| == 0 && forall c: nat :: c < |perm| ==> c in perm
    requires matrix.Length0 == |ct| / |perm| && matrix.Length1 == |perm|
    requires forall row, c :: 0 <= row < matrix.Length0 && 0 <= c < matrix.Length1 ==>
               matrix[row, c] == CipherByte(ct, |perm|, IndexOf(perm, c), row)
    ensures FlattenRows(matrix) == Untranspose(ct, perm)
  {
    var n, rows := |perm|, |ct| / |perm|;
    FullRows(|ct|, n);
    var flattened, u := FlattenRows(matrix), Untranspose(ct, perm);
    forall row, c | 0 <= row < rows && 0 <= c < n
      ensures FlatIndex(row, c, n) < |flattened| && flattened[FlatIndex(row, c, n)] == u[FlatIndex(row, c, n)]
    {
      UntransposeAt(ct, perm, row, c);
    }
    EqualByCells(flattened, u, rows, n);
  }

  /** The inner loop of `decrypt`: copy the next `rows` ciphertext bytes, from
      the running index on, down column `perm[j]`. */
  method FillColumn(matrix: array2<u8>, ct: seq<u8>, perm: seq<nat>, j: nat, index: nat) returns (next: nat)
    modifies matrix
    requires |perm| > 0 && |ct| % |perm| == 0 && IsPermutation(perm)
    requires matrix.Length0 == |ct| / |perm| && matrix.Length1 == |perm|
    requires j < |perm| && index == j * matrix.Length0
    requires forall row, c :: 0 <= row < matrix.Length0 && 0 <= c < matrix.Length1 ==>
               matrix[row, c] == if IndexOf(perm, c) < j then CipherByte(ct, |perm|, IndexOf(perm, c), row) else 0
    ensures next == index + matrix.Length0
    ensures forall row, c :: 0 <= row < matrix.Length0 && 0 <= c < matrix.Length1 ==>
              matrix[row, c] == if IndexOf(perm, c) <= j then CipherByte(ct, |perm|, IndexOf(perm, c), row) else 0
  {
    var numRows := matrix.Length0;
    FullRows(|ct|, |perm|);
    var colIndex := perm[j];
    assert IndexOf(perm, colIndex) == j;
    next := index;
    var row := 0;
    while row < numRows
      invariant 0 <= row <= numRows && next == j * numRows + row
      invariant forall rr, c :: 0 <= rr < numRows && 0 <= c < |perm| ==>
                  matrix[rr, c] == if IndexOf(perm, c) < j || (c == colIndex && rr < row)
                                   then CipherByte(ct, |perm|, IndexOf(perm, c), rr)
                                   else 0
    {
      Arith.CellBound(j, row, |perm|, numRows);
      matrix[row, colIndex] := ct[next];
      next := next + 1;
      row := row + 1;
    }
  }

  /** The nested loops of `decrypt`: a zeroed `rows x n` matrix, filled column
      by column in the order `perm` from a running index into the ciphertext. */
  method FillMatrix(ct: seq<u8>, perm: seq<nat>) returns (matrix: array2<u8>)
    requires |perm| > 0 && |ct| % |perm| == 0 && IsPermutation(perm)
    ensures fresh(matrix) && matrix.Length0 == |ct| / |perm| && matrix.Length1 == |perm|
    ensures forall row, c :: 0 <= row < matrix.Length0 && 0 <= c < matrix.Length1 ==>
              matrix[row, c] == CipherByte(ct, |perm|, IndexOf(perm, c), row)
  {
    var keyLength := |perm|;
    var numRows := |ct| / keyLength;
    matrix := new u8[numRows, keyLength]((_, _) => 0);
    var index := 0;
    var j := 0;
    while j < keyLength
      invariant 0 <= j <= keyLength && index == j * numRows
      invariant forall row, c :: 0 <= row < numRows && 0 <= c < keyLength ==>
                  matrix[row, c] == if IndexOf(perm, c) < j then CipherByte(ct, keyLength, IndexOf(perm, c), row) else 0
    {
      index := FillColumn(matrix, ct, perm, j, index);
      Arith.MulSucc(j, numRows);
      j := j + 1;
    }
  }

  /** `decrypt`: refuse an empty key and a length that is not a multiple of it,
      fill a zeroed `rows x n` matrix column by column in sorted-key order from
      a running index, flatten it row by row and strip the padding. */
  method Decrypt(encryptedMessage: seq<u8>, key: seq<u8>) returns (r: Result<seq<u8>, CipherOperationError>)
    ensures |key| == 0 ==> r == Err(InvalidKeySize(0))
    ensures |key| > 0 && |encryptedMessage| % |key| != 0 ==> r == Err(InvalidEncryptedMessageLength)
    ensures |key| > 0 && |encryptedMessage| % |key| == 0 ==>
              r == WrapPaddingError(Pkcs7.StripPadding(Untranspose(encryptedMessage, SortedKeyIndices(key)), |key|))
    ensures |key| > 255 && |encryptedMessage| % |key| == 0 ==> r == Err(PaddingValidationError(Padding.ParameterError))
    ensures |key| > 0 && |encryptedMessage| == 0 ==> r == Err(PaddingValidationError(Padding.ParameterError))
  {
    if |key| == 0 {
      return Err(InvalidKeySize(0));
    }
    var keyLength := |key|;
    if |encryptedMessage| % keyLength != 0 {
      return Err(InvalidEncryptedMessageLength);
    }
    var sortedKeyIndices := SortedKeyIndices(key);
    var matrix := FillMatrix(encryptedMessage, sortedKeyIndices);
    var flattened := FlattenRows(matrix);
    FilledMatrixFlattens(matrix, encryptedMessage, sortedKeyIndices);
    r := WrapPaddingError(Pkcs7.StripPadding(flattened, keyLength));
  }

  /** decrypt(encrypt(P, K), K) == P: for a non-empty plaintext and a key of 1 to
      255 bytes, what Decrypt returns on Encrypt's ciphertext is the plaintext. */
  lemma DecryptInvertsEncrypt(plaintext: seq<u8>, key: seq<u8>)
    requires |plaintext| > 0 && 0 < |key| <= 255
    ensures Encrypt(plaintext, key).Ok?
    ensures var ct := Encrypt(plaintext, key).value;
            |ct| % |key| == 0 &&
            WrapPaddingError(Pkcs7.StripPadding(Untranspose(ct, SortedKeyIndices(key)), |key|)) == Ok(plaintext)
  {
    var padded := Pkcs7.ApplyPadding(plaintext, |key|).value;
    UntransposeTranspose(padded, SortedKeyIndices(key));
    Pkcs7.StripApply(plaintext, |key|);
  }

  /** Encrypting and then decrypting with the same key gives the plaintext back. */
  method EncryptThenDecrypt(plaintext: seq<u8>, key: seq<u8>) returns (r: Result<seq<u8>, CipherOperationError>)
    requires |plaintext| > 0 && 0 < |key| <= 255
    ensures r == Ok(plaintext)
  {
    var ct := Encrypt(plaintext, key);
    DecryptInvertsEncrypt(plaintext, key);
    r := Decrypt(ct.value, key);
  }
}
