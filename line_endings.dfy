/**
 * Line endings as the splitter writes them: `replace(/\r?\n/g, '\r\n')`
 * turns every line feed, bare or already preceded by a carriage return,
 * into a CR LF pair and leaves every other character alone.
 */
module LineEndings {
  import opened Text

  /** A CR LF pair starts at index i. */
  predicate CrLfAt(s: string, i: nat) {
    i + 1 < |s| && s[i] == '\r' && s[i + 1] == '\n'
  }

  /**
   * The global replace, scanning left to right: a CR LF pair is one match,
   * a bare LF is one match, any other character (a lone CR included) is kept.
   */
  function ToCrlf(s: string): (r: string)
    ensures |s| <= |r|
  {
    if s == [] then []
    else if CrLfAt(s, 0) then "\r\n" + ToCrlf(s[2..])
    else if s[0] == '\n' then "\r\n" + ToCrlf(s[1..])
    else [s[0]] + ToCrlf(s[1..])
  }

  /** Every line feed in s is preceded by a carriage return. */
  predicate IsCrlf(s: string) {
    forall i :: 0 <= i < |s| && s[i] == '\n' ==> 0 < i && s[i - 1] == '\r'
  }

  /** The reverse reading: every CR LF pair becomes a single LF. */
  function ToLf(s: string): (r: string)
    ensures |r| <= |s|
  {
    if s == [] then []
    else if CrLfAt(s, 0) then "\n" + ToLf(s[2..])
    else [s[0]] + ToLf(s[1..])
  }

  /** The replacement text never starts with a bare line feed. */
  lemma {:induction false} ToCrlfHead(s: string)
    ensures ToCrlf(s) != [] ==> ToCrlf(s)[0] != '\n'
  {
  }

  /** The text ends with a carriage return. */
  predicate EndsInCr(a: string) {
    a != [] && a[|a| - 1] == '\r'
  }

  /** Gluing CR LF text to CR LF text that does not start with LF keeps it CR LF. */
  lemma CrlfConcat(a: string, b: string)
    requires IsCrlf(a) && IsCrlf(b)
    requires b != [] && b[0] == '\n' ==> EndsInCr(a)
    ensures IsCrlf(a + b)
  {
    var s := a + b;
    forall i | 0 <= i < |s| && s[i] == '\n' ensures 0 < i && s[i - 1] == '\r' {
      if i >= |a| {
        assert s[i] == b[i - |a|];
        if i > |a| {
          assert s[i - 1] == b[i - 1 - |a|];
        }
      } else {
        assert s[i] == a[i];
        assert s[i - 1] == a[i - 1];
      }
    }
  }

  /** After the replace every line feed is part of a CR LF pair. */
  lemma {:induction false} ToCrlfIsCrlf(s: string)
    ensures IsCrlf(ToCrlf(s))
    decreases |s|
  {
    if s == [] {
    } else if CrLfAt(s, 0) {
      ToCrlfIsCrlf(s[2..]);
      ToCrlfHead(s[2..]);
      CrlfConcat("\r\n", ToCrlf(s[2..]));
    } else if s[0] == '\n' {
      ToCrlfIsCrlf(s[1..]);
      ToCrlfHead(s[1..]);
      CrlfConcat("\r\n", ToCrlf(s[1..]));
    } else {
      ToCrlfIsCrlf(s[1..]);
      ToCrlfHead(s[1..]);
      CrlfConcat([s[0]], ToCrlf(s[1..]));
    }
  }

  /** The replace changes a text exactly when it holds a bare line feed. */
  lemma {:induction false} ToCrlfFixpoint(s: string)
    ensures ToCrlf(s) == s <==> IsCrlf(s)
    decreases |s|
  {
    ToCrlfIsCrlf(s);
    if IsCrlf(s) && s != [] {
      if CrLfAt(s, 0) {
        var r := s[2..];
        assert IsCrlf(r) by {
          forall i | 0 <= i < |r| && r[i] == '\n' ensures 0 < i && r[i - 1] == '\r' {
            assert s[i + 2] == r[i];
            assert s[1] == '\n';
          }
        }
        ToCrlfFixpoint(r);
        assert s == "\r\n" + r;
      } else {
        var r := s[1..];
        assert IsCrlf(r) by {
          forall i | 0 <= i < |r| && r[i] == '\n' ensures 0 < i && r[i - 1] == '\r' {
            assert s[i + 1] == r[i];
          }
        }
        ToCrlfFixpoint(r);
        assert s == [s[0]] + r;
      }
    }
  }

  /** Replacing twice gives what replacing once gives. */
  lemma ToCrlfIdempotent(s: string)
    ensures ToCrlf(ToCrlf(s)) == ToCrlf(s)
  {
    ToCrlfIsCrlf(s);
    ToCrlfFixpoint(ToCrlf(s));
  }

  /**
   * Nothing but line endings changes: read back with CR LF taken as LF,
   * the replaced text is the original text read the same way.
   */
  lemma {:induction false} ToCrlfKeepsLines(s: string)
    ensures ToLf(ToCrlf(s)) == ToLf(s)
    decreases |s|
  {
    if s == [] {
    } else if CrLfAt(s, 0) {
      ToCrlfKeepsLines(s[2..]);
      var x := ToCrlf(s[2..]);
      assert ("\r\n" + x)[2..] == x;
    } else if s[0] == '\n' {
      ToCrlfKeepsLines(s[1..]);
      var x := ToCrlf(s[1..]);
      assert ("\r\n" + x)[2..] == x;
    } else {
      ToCrlfKeepsLines(s[1..]);
      ToCrlfHead(s[1..]);
      var x := ToCrlf(s[1..]);
      assert ([s[0]] + x)[1..] == x;
    }
  }

  /** A lone CR LF is CR LF text and reads back as one line feed. */
  lemma CrLfLine()
    ensures IsCrlf("\r\n") && ToLf("\r\n") == "\n"
  {
    var e := "\r\n";
    assert CrLfAt(e, 0) && e[2..] == [];
  }

  /** No CR LF pair straddles the cut between x and y. */
  predicate Cuttable(x: string, y: string) {
    x == [] || y == [] || x[|x| - 1] != '\r' || y[0] != '\n'
  }

  /** Text reads back piece by piece, unless a CR LF pair straddles the cut. */
  lemma {:induction false} ToLfAppend(x: string, y: string)
    requires Cuttable(x, y)
    ensures ToLf(x + y) == ToLf(x) + ToLf(y)
    decreases |x|
  {
    if x == [] {
      assert x + y == y;
    } else if |x| == 1 {
      ToLfAppendOne(x, y);
    } else {
      var k := if CrLfAt(x, 0) then 2 else 1;
      ToLfAppend(x[k..], y);
      ToLfAppendStep(x, y, k);
    }
  }

  lemma ToLfAppendOne(x: string, y: string)
    requires |x| == 1 && Cuttable(x, y)
    ensures ToLf(x + y) == ToLf(x) + ToLf(y)
  {
    var s := x + y;
    assert !CrLfAt(s, 0);
    assert s[1..] == y;
    assert ToLf(x) == [x[0]] + ToLf([]);
  }

  /** The first match of the reading replace is the same in x and in x + y. */
  lemma ToLfAppendStep(x: string, y: string, k: nat)
    requires |x| >= 2 && k == (if CrLfAt(x, 0) then 2 else 1)
    requires ToLf(x[k..] + y) == ToLf(x[k..]) + ToLf(y)
    ensures ToLf(x + y) == ToLf(x) + ToLf(y)
  {
    var s := x + y;
    var h: string := if k == 2 then "\n" else [x[0]];
    assert s[0] == x[0] && s[1] == x[1];
    assert CrLfAt(s, 0) == CrLfAt(x, 0);
    assert s[k..] == x[k..] + y;
    assert ToLf(s) == h + ToLf(s[k..]);
    assert ToLf(x) == h + ToLf(x[k..]);
    assert h + (ToLf(x[k..]) + ToLf(y)) == (h + ToLf(x[k..])) + ToLf(y);
  }
}
