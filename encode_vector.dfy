/**
 * The Base64 text of the publish target in the key derivation example
 * (`sometext.com/_components/instance`), worked out three characters at a
 * time: each group of three ASCII characters becomes one group of four
 * Base64 characters, and text cut after a multiple of three characters
 * encodes piece by piece.
 */
module EncodeVector {
  import opened Buffer

  /** A three-character ASCII text with the given code points encodes to `Quad` of them. */
  lemma Group(t: string, b0: byte, b1: byte, b2: byte, o: string)
    requires |t| == 3 && t[0] as int == b0 && t[1] as int == b1 && t[2] as int == b2
    requires b0 < 0x80 && b1 < 0x80 && b2 < 0x80
    requires Quad([b0, b1, b2]) == o
    ensures IsAscii(t) && Encode(t) == o
  {
    EncodeAsciiTriple(t);
    assert Triple(t) == [b0, b1, b2];
  }

  /** Three whole groups followed by any ASCII tail encode piece by piece. */
  lemma Pieces(t: string, p0: string, p1: string, p2: string, p3: string)
    requires t == p0 + (p1 + (p2 + p3))
    requires IsAscii(p0) && IsAscii(p1) && IsAscii(p2) && IsAscii(p3)
    requires |p0| == |p1| == |p2| == 3
    ensures Encode(t) == Encode(p0) + Encode(p1) + Encode(p2) + Encode(p3)
    ensures IsAscii(t) && |t| == 9 + |p3|
  {
    EncodeConcat(p2, p3);
    EncodeConcat(p1, p2 + p3);
    EncodeConcat(p0, p1 + (p2 + p3));
  }

  lemma GroupSom(t: string) requires t == "som" ensures IsAscii(t) && Encode(t) == "c29t" { Group(t, 115, 111, 109, "c29t"); }
  lemma GroupEte(t: string) requires t == "ete" ensures IsAscii(t) && Encode(t) == "ZXRl" { Group(t, 101, 116, 101, "ZXRl"); }
  lemma GroupXtDot(t: string) requires t == "xt." ensures IsAscii(t) && Encode(t) == "eHQu" { Group(t, 120, 116, 46, "eHQu"); }
  lemma GroupCom(t: string) requires t == "com" ensures IsAscii(t) && Encode(t) == "Y29t" { Group(t, 99, 111, 109, "Y29t"); }
  lemma GroupSlashUC(t: string) requires t == "/_c" ensures IsAscii(t) && Encode(t) == "L19j" { Group(t, 47, 95, 99, "L19j"); }
  lemma GroupOmp(t: string) requires t == "omp" ensures IsAscii(t) && Encode(t) == "b21w" { Group(t, 111, 109, 112, "b21w"); }
  lemma GroupOne(t: string) requires t == "one" ensures IsAscii(t) && Encode(t) == "b25l" { Group(t, 111, 110, 101, "b25l"); }
  lemma GroupNts(t: string) requires t == "nts" ensures IsAscii(t) && Encode(t) == "bnRz" { Group(t, 110, 116, 115, "bnRz"); }
  lemma GroupSlashIn(t: string) requires t == "/in" ensures IsAscii(t) && Encode(t) == "L2lu" { Group(t, 47, 105, 110, "L2lu"); }
  lemma GroupSta(t: string) requires t == "sta" ensures IsAscii(t) && Encode(t) == "c3Rh" { Group(t, 115, 116, 97, "c3Rh"); }
  lemma GroupNce(t: string) requires t == "nce" ensures IsAscii(t) && Encode(t) == "bmNl" { Group(t, 110, 99, 101, "bmNl"); }

  lemma SplitHost(t: string, p0: string, p1: string, p2: string, p3: string)
    requires t == "sometext.com" && p0 == "som" && p1 == "ete" && p2 == "xt." && p3 == "com"
    ensures t == p0 + (p1 + (p2 + p3))
  {
  }

  lemma JoinHost(r: string, q0: string, q1: string, q2: string, q3: string)
    requires r == q0 + q1 + q2 + q3
    requires q0 == "c29t" && q1 == "ZXRl" && q2 == "eHQu" && q3 == "Y29t"
    ensures r == "c29tZXRleHQuY29t"
  {
  }

  lemma EncodeHost(t: string)
    requires t == "sometext.com"
    ensures IsAscii(t) && |t| == 12 && Encode(t) == "c29tZXRleHQuY29t"
  {
    var p0, p1, p2, p3 := "som", "ete", "xt.", "com";
    SplitHost(t, p0, p1, p2, p3);
    GroupSom(p0); GroupEte(p1); GroupXtDot(p2); GroupCom(p3);
    Pieces(t, p0, p1, p2, p3);
    JoinHost(Encode(t), Encode(p0), Encode(p1), Encode(p2), Encode(p3));
  }

  lemma SplitComponents(t: string, p0: string, p1: string, p2: string, p3: string)
    requires t == "/_components" && p0 == "/_c" && p1 == "omp" && p2 == "one" && p3 == "nts"
    ensures t == p0 + (p1 + (p2 + p3))
  {
  }

  lemma JoinComponents(r: string, q0: string, q1: string, q2: string, q3: string)
    requires r == q0 + q1 + q2 + q3
    requires q0 == "L19j" && q1 == "b21w" && q2 == "b25l" && q3 == "bnRz"
    ensures r == "L19jb21wb25lbnRz"
  {
  }

  lemma EncodeComponents(t: string)
    requires t == "/_components"
    ensures IsAscii(t) && |t| == 12 && Encode(t) == "L19jb21wb25lbnRz"
  {
    var p0, p1, p2, p3 := "/_c", "omp", "one", "nts";
    SplitComponents(t, p0, p1, p2, p3);
    GroupSlashUC(p0); GroupOmp(p1); GroupOne(p2); GroupNts(p3);
    Pieces(t, p0, p1, p2, p3);
    JoinComponents(Encode(t), Encode(p0), Encode(p1), Encode(p2), Encode(p3));
  }

  lemma SplitInstance(t: string, p0: string, p1: string, p2: string, p3: string)
    requires t == "/instance" && p0 == "/in" && p1 == "sta" && p2 == "nce" && p3 == ""
    ensures t == p0 + (p1 + (p2 + p3))
  {
  }

  lemma JoinInstance(r: string, q0: string, q1: string, q2: string, q3: string)
    requires r == q0 + q1 + q2 + q3
    requires q0 == "L2lu" && q1 == "c3Rh" && q2 == "bmNl" && q3 == ""
    ensures r == "L2luc3RhbmNl"
  {
  }

  lemma EncodeInstance(t: string)
    requires t == "/instance"
    ensures IsAscii(t) && Encode(t) == "L2luc3RhbmNl"
  {
    var p0, p1, p2, p3 := "/in", "sta", "nce", "";
    SplitInstance(t, p0, p1, p2, p3);
    GroupSlashIn(p0); GroupSta(p1); GroupNce(p2);
    assert IsAscii(p3) && Encode(p3) == "";
    Pieces(t, p0, p1, p2, p3);
    JoinInstance(Encode(t), Encode(p0), Encode(p1), Encode(p2), Encode(p3));
  }

  /** Two ASCII pieces of twelve characters each, then any tail, encode piece by piece. */
  lemma Thirds(s: string, a: string, b: string, c: string)
    requires s == a + (b + c)
    requires IsAscii(a) && |a| == 12 && IsAscii(b) && |b| == 12
    ensures Encode(s) == Encode(a) + Encode(b) + Encode(c)
  {
    EncodeConcat(b, c);
    EncodeConcat(a, b + c);
  }

  lemma SplitTarget(s: string, a: string, b: string, c: string)
    requires s == "sometext.com/_components/instance"
    requires a == "sometext.com" && b == "/_components" && c == "/instance"
    ensures s == a + (b + c)
  {
  }

  lemma JoinTarget(r: string, a: string, b: string, c: string)
    requires r == a + b + c
    requires a == "c29tZXRleHQuY29t" && b == "L19jb21wb25lbnRz" && c == "L2luc3RhbmNl"
    ensures r == "c29tZXRleHQuY29tL19jb21wb25lbnRzL2luc3RhbmNl"
  {
  }

  /** The publish target of the key derivation example, without its scheme. */
  lemma EncodeExampleTarget(s: string)
    requires s == "sometext.com/_components/instance"
    ensures Encode(s) == "c29tZXRleHQuY29tL19jb21wb25lbnRzL2luc3RhbmNl"
  {
    var a, b, c := "sometext.com", "/_components", "/instance";
    SplitTarget(s, a, b, c);
    EncodeHost(a);
    EncodeComponents(b);
    EncodeInstance(c);
    Thirds(s, a, b, c);
    JoinTarget(Encode(s), Encode(a), Encode(b), Encode(c));
  }
}
