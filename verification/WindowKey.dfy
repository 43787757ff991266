/**
  File names of cached windows.  Different windows, hashes or raster kinds have different
  names, whatever the numbers involved.
 */
module WindowKey {
  import opened Prelude
  import opened TileGrid

  function CacheName(kind: RasterKind): string {
    match kind
    case FlowDir => "flow-dir"
    case FlowAcc => "flow-acc"
  }

  // ---- Decimal numbers ----------------------------------------------------------------

  predicate IsDigit(c: char) {
    '0' <= c <= '9'
  }

  /** Decimal rendering without leading zeros. */
  function Decimal(n: nat): (text: string)
    ensures |text| > 0 && forall i :: 0 <= i < |text| ==> IsDigit(text[i])
  {
    var last := ['0' + (n % 10) as char];
    if n < 10 then last else Decimal(n / 10) + last
  }

  function ValueOf(text: string): nat
    requires forall i :: 0 <= i < |text| ==> IsDigit(text[i])
  {
    if text == [] then 0
    else
      assert IsDigit(text[|text| - 1]);
      ValueOf(text[..|text| - 1]) * 10 + (text[|text| - 1] as int - '0' as int)
  }

  lemma {:induction false} DecimalRoundTrip(n: nat)
    ensures ValueOf(Decimal(n)) == n
  {
    var text := Decimal(n);
    if n < 10 {
      assert text[..0] == [];
    } else {
      DecimalRoundTrip(n / 10);
      assert text[..|text| - 1] == Decimal(n / 10);
    }
  }

  /** No digit follows. */
  predicate Stops(rest: string) {
    rest == [] || !IsDigit(rest[0])
  }

  /** A number is read off a text as far as its digits go. */
  lemma NumberIsRead(a: nat, rest: string, b: nat, rest': string)
    requires Decimal(a) + rest == Decimal(b) + rest' && Stops(rest) && Stops(rest')
    ensures a == b && rest == rest'
  {
    var x, y := Decimal(a), Decimal(b);
    SameLength(x, rest, y, rest');
    assert x == (x + rest)[..|x|] == (y + rest')[..|y|] == y;
    assert rest == (x + rest)[|x|..] == (y + rest')[|y|..] == rest';
    DecimalRoundTrip(a);
    DecimalRoundTrip(b);
  }

  lemma SameLength(x: string, rest: string, y: string, rest': string)
    requires x + rest == y + rest' && Stops(rest) && Stops(rest')
    requires forall i :: 0 <= i < |x| ==> IsDigit(x[i])
    requires forall i :: 0 <= i < |y| ==> IsDigit(y[i])
    ensures |x| == |y|
  {
    var whole := x + rest;
    assert forall i :: 0 <= i < |x| ==> whole[i] == x[i];
    assert forall i :: 0 <= i < |y| ==> whole[i] == y[i];
    assert |x| < |whole| ==> whole[|x|] == rest[0];
    assert |y| < |whole| ==> whole[|y|] == rest'[0];
  }

  lemma SameTail(head: string, a: string, b: string)
    requires head + a == head + b
    ensures a == b
  {
    assert a == (head + a)[|head|..];
    assert b == (head + b)[|head|..];
  }

  // ---- Names --------------------------------------------------------------------------

  /** `cache_fragment`, followed by the rest of the name. */
  function Fragment(w: Window, rest: string): string {
    "x" + (Decimal(w.colOff) +
        ("-y" + (Decimal(w.rowOff) + ("-w" + (Decimal(w.width) + ("-h" + (Decimal(w.height) + rest)))))))
  }

  /** The file name of `canonical_window_path`. */
  function FileName(kind: RasterKind, hash: u64, w: Window): string {
    CacheName(kind) + ("." + (Decimal(hash) + ("." + Fragment(w, ".tif"))))
  }

  lemma FragmentInjective(v: Window, w: Window, rest: string)
    requires Fragment(v, rest) == Fragment(w, rest) && Stops(rest)
    ensures v == w
  {
    var v3, w3 := "-h" + (Decimal(v.height) + rest), "-h" + (Decimal(w.height) + rest);
    var v2, w2 := "-w" + (Decimal(v.width) + v3), "-w" + (Decimal(w.width) + w3);
    var v1, w1 := "-y" + (Decimal(v.rowOff) + v2), "-y" + (Decimal(w.rowOff) + w2);
    SameTail("x", Decimal(v.colOff) + v1, Decimal(w.colOff) + w1);
    NumberIsRead(v.colOff, v1, w.colOff, w1);
    SameTail("-y", Decimal(v.rowOff) + v2, Decimal(w.rowOff) + w2);
    NumberIsRead(v.rowOff, v2, w.rowOff, w2);
    SameTail("-w", Decimal(v.width) + v3, Decimal(w.width) + w3);
    NumberIsRead(v.width, v3, w.width, w3);
    SameTail("-h", Decimal(v.height) + rest, Decimal(w.height) + rest);
    NumberIsRead(v.height, rest, w.height, rest);
  }

  /** A file name determines the raster kind, the hash of the remote path and the window. */
  lemma FileNameInjective(kind: RasterKind, hash: u64, w: Window, kind': RasterKind, hash': u64, w': Window)
    requires FileName(kind, hash, w) == FileName(kind', hash', w')
    ensures kind == kind' && hash == hash' && w == w'
  {
    var rest, rest' := "." + Fragment(w, ".tif"), "." + Fragment(w', ".tif");
    assert FileName(kind, hash, w)[5] == CacheName(kind)[5];
    assert FileName(kind', hash', w')[5] == CacheName(kind')[5];
    assert kind == kind';
    SameTail(CacheName(kind), "." + (Decimal(hash) + rest), "." + (Decimal(hash') + rest'));
    SameTail(".", Decimal(hash) + rest, Decimal(hash') + rest');
    NumberIsRead(hash, rest, hash', rest');
    SameTail(".", Fragment(w, ".tif"), Fragment(w', ".tif"));
    FragmentInjective(w, w', ".tif");
  }

  lemma OneDigit(n: nat)
    requires n < 10
    ensures Decimal(n) == ['0' + n as char]
  {
  }

  /** The name of one window. */
  lemma NameOfWindow()
    ensures FileName(FlowAcc, 7, Window(1, 2, 3, 4)) == "flow-acc.7.x1-y2-w3-h4.tif"
  {
    OneDigit(7);
    OneDigit(1);
    OneDigit(2);
    OneDigit(3);
    OneDigit(4);
    var tail := "-w" + ("3" + ("-h" + ("4" + ".tif")));
    assert tail == "-w3-h4.tif";
    assert Fragment(Window(1, 2, 3, 4), ".tif") == "x1-y2" + tail;
  }
}
