/** The text of assembler labels: when different labels of a whole program can have the same text. */
module LabelText {
  import opened Wrappers
  import opened Words
  import opened Syntax
  import opened Ir
  import opened Typing
  import opened CodeGen
  import opened Semantics
  import opened IrMachine
  import opened ControlFlow
  import opened Preservation
  import opened Lowering
  import opened Literals
  import opened Program
  import opened StackLayout
  import AsmGen
  import R = RiscV

  // ----- numbers and labels as text -----

  function Decimal(n: nat): (s: string)
    ensures s != [] && AllDigits(s)
  {
    if n < 10 then [DigitChar(n)] else Decimal(n / 10) + [DigitChar(n % 10)]
  }

  function DigitChar(d: nat): (c: char)
    requires d < 10
    ensures '0' <= c <= '9' && Digit(c) == d
  {
    '0' + d as char
  }

  lemma {:induction false} DecimalDenotes(n: nat)
    ensures Numeral(Decimal(n)) == n
  {
    if n >= 10 {
      DecimalDenotes(n / 10);
      NumeralStep(Decimal(n / 10), DigitChar(n % 10));
    } else {
      NumeralStep([], DigitChar(n));
      assert [] + [DigitChar(n)] == [DigitChar(n)];
    }
  }

  function Stem(l: Label): string {
    match l
    case EndIf(_) => ".endif"
    case ElseIf(_) => ".elseif"
    case EndTer(_) => ".endter"
    case ElseTer(_) => ".elseter"
    case BeginLoop(_) => ".begin_loop"
    case ContinueLoop(_) => ".continue_loop"
    case BreakLoop(_) => ".break_loop"
  }

  function Text(l: R.AsmLabel): string {
    match l
    case Global(f) => f
    case Epilogue(f) => f + "_epilogue"
    case Local(m) => Stem(m) + Decimal(m.n)
  }

  predicate NoDigits(s: string) {
    forall c | c in s :: !('0' <= c <= '9')
  }

  lemma StemHasNoDigits(l: Label)
    ensures NoDigits(Stem(l)) && Stem(l) != [] && Stem(l)[0] == '.'
  {
  }

  lemma StemIsKind(l: Label, m: Label)
    requires Stem(l) == Stem(m) && l.n == m.n
    ensures l == m
  {
    match l {
      case EndIf(_) => KindLetters(m);
      case ElseIf(_) => KindLetters(m);
      case EndTer(_) => KindLetters(m);
      case ElseTer(_) => KindLetters(m);
      case BeginLoop(_) => KindLetters(m);
      case ContinueLoop(_) => KindLetters(m);
      case BreakLoop(_) => KindLetters(m);
    }
  }

  /** Length and sixth letter tell the stems apart. */
  lemma KindLetters(m: Label)
    ensures var s := Stem(m);
            && (m.EndIf? <==> |s| == 6) && (m.ElseIf? <==> |s| == 7 && s[5] == 'i') && (m.EndTer? <==> |s| == 7 && s[5] == 'e')
            && (m.ElseTer? <==> |s| == 8) && (m.BeginLoop? <==> |s| == 11 && s[4] == 'i') && (m.BreakLoop? <==> |s| == 11 && s[4] == 'a')
            && (m.ContinueLoop? <==> |s| == 14)
  {
  }

  lemma DigitsStart(p: string, d: string, k: nat)
    requires NoDigits(p) && AllDigits(d) && k < |p| + |d|
    ensures '0' <= (p + d)[k] <= '9' <==> k >= |p|
  {
    if k < |p| { assert p[k] in p; }
  }

  /** Where the digits start is determined by the whole text. */
  lemma SplitText(p: string, d: string, q: string, e: string)
    requires NoDigits(p) && NoDigits(q) && AllDigits(d) && AllDigits(e) && d != [] && e != []
    requires p + d == q + e
    ensures p == q && d == e
  {
    assert |p + d| == |q + e|;
    DigitsStart(p, d, |p|);
    DigitsStart(q, e, |p|);
    DigitsStart(p, d, |q|);
    DigitsStart(q, e, |q|);
    assert p == (p + d)[..|p|] && q == (q + e)[..|q|] && d == (p + d)[|p|..] && e == (q + e)[|q|..];
  }

  lemma LocalTextInjective(l: Label, m: Label)
    requires Text(R.Local(l)) == Text(R.Local(m))
    ensures l == m
  {
    hide Stem, Decimal, Numeral;
    StemHasNoDigits(l);
    StemHasNoDigits(m);
    SplitText(Stem(l), Decimal(l.n), Stem(m), Decimal(m.n));
    DecimalDenotes(l.n);
    DecimalDenotes(m.n);
    StemIsKind(l, m);
  }

  // ----- whole programs -----

  /** Names start with a letter or an underscore, never with a dot. */
  predicate IsName(s: string) {
    s != [] && s[0] != '.'
  }

  predicate NamesOk(u: Unit) {
    (forall f | f in u.ctx.funcs :: IsName(f)) && (forall x | x in u.ctx.globals :: IsName(x))
  }

  /** A declared function, defined or not, or a global is named like the epilogue label of a defined function. */
  predicate Clash(u: Unit) {
    exists f | f in u.defined :: f + "_epilogue" in u.ctx.funcs || f + "_epilogue" in u.ctx.globals
  }

  /** The labels of functions and epilogues name defined functions. */
  predicate Named(u: Unit, l: R.AsmLabel) {
    !l.Local? ==> l.name in u.defined
  }

  /** Function names and global names are kept apart. */
  predicate Apart(u: Unit) {
    (forall f | f in u.defined :: f in u.ctx.funcs) && (forall f | f in u.ctx.funcs :: f !in u.ctx.globals)
  }

  lemma TextFirst(l: R.AsmLabel)
    requires !l.Local? ==> IsName(l.name)
    ensures Text(l) != [] && (Text(l)[0] == '.' <==> l.Local?)
  {
    hide Decimal;
    if l.Local? { StemHasNoDigits(l.mark); }
  }

  lemma SuffixInjective(f: string, g: string, e: string)
    requires f + e == g + e
    ensures f == g
  {
    assert f == (f + e)[..|f|] && g == (g + e)[..|g|];
  }

  /** Different labels of a program have different text unless its names clash. */
  lemma TextInjective(u: Unit, l: R.AsmLabel, m: R.AsmLabel)
    requires NamesOk(u) && Apart(u) && !Clash(u) && Named(u, l) && Named(u, m) && Text(l) == Text(m)
    ensures l == m
  {
    hide Stem, Decimal;
    TextFirst(l);
    TextFirst(m);
    if l.Local? {
      LocalTextInjective(l.mark, m.mark);
    } else if l.Epilogue? && m.Epilogue? {
      SuffixInjective(l.name, m.name, "_epilogue");
    }
  }

  /** Every symbol of the assembly is defined once: labels differ in text from each other and from globals, and
      the name of a declared function is the text of no other label. */
  predicate SymbolsDistinct(u: Unit, asm: seq<R.Asm>) {
    && (forall i, j | 0 <= i < j < |asm| && asm[i].Def? && asm[j].Def? :: Text(asm[i].l) != Text(asm[j].l))
    && (forall i | 0 <= i < |asm| && asm[i].Def? :: Text(asm[i].l) !in u.ctx.globals)
    && forall i | 0 <= i < |asm| && asm[i].Def? && Text(asm[i].l) in u.ctx.funcs :: asm[i].l.Global?
  }

  /** A label stands only where it is found, and its line is in the IR. */
  lemma DefPosition(p: IrProgram, j: nat, l: R.AsmLabel)
    requires WellFormed(p.code) && j < |Asm(p)| && Asm(p)[j] == R.Def(l)
    ensures j == Find(Asm(p), R.Def(l)) && DefLine(l) in p.code
  {
    hide LineOk, WellFormed;
    var i := Locate(p, |p.code|, j);
    LineAt(p, i);
    assert Asm(p)[Off(p, i)..Off(p, i) + |Line(p, i)|][j - Off(p, i)] == Asm(p)[j];
    OnlyDef(p.sizes, AsmGen.CurFunc(p.code, i), p.code[i], j - Off(p, i), l);
    LabelPosition(p, l, i);
  }

  lemma {:induction false} VisitKeepsApart(u: Unit, ds: seq<TopDecl>)
    requires Apart(u) && VisitTops(u, ds).Some?
    ensures Apart(VisitTops(u, ds).value)
    decreases ds
  {
    hide ItemsOk, ItemsCode;
    if ds != [] { VisitKeepsApart(VisitTop(u, ds[0]).value, ds[1..]); }
  }

  lemma UnitOfCompile(ds: seq<TopDecl>)
    requires Compile(ds).Some?
    ensures UnitOk(Compile(ds).value) && Apart(Compile(ds).value)
  {
    hide UnitOk;
    EmptyOk();
    VisitOk(EmptyUnit, ds);
    VisitKeepsApart(EmptyUnit, ds);
  }

  lemma LabelsAreNamed(u: Unit, j: nat)
    requires UnitOk(u) && j < |Asm(Linkable(u, 0, map[]))| && Asm(Linkable(u, 0, map[]))[j].Def?
    ensures Named(u, Asm(Linkable(u, 0, map[]))[j].l)
  {
    hide WellFormed, LinkedFunc;
    DefPosition(Linkable(u, 0, map[]), j, Asm(Linkable(u, 0, map[]))[j].l);
  }

  lemma LineOfDefined(u: Unit, f: string)
    requires UnitOk(u) && f in u.defined
    ensures WellFormed(u.code) && Find(u.code, Func(f)) < |u.code|
  {
    hide WellFormed, ItemsCode, ItemsOk, FrameSlots, At;
    assert LinkedFunc(u.defined[f], f, Linkable(u, 0, map[]));
    assert Func(f) in u.code;
  }

  /** Both labels of a defined function are in the assembly. */
  lemma LabelsOfDefined(u: Unit, f: string) returns (i: nat, j: nat)
    requires UnitOk(u) && f in u.defined
    ensures var asm := Asm(Linkable(u, 0, map[]));
            i < |asm| && j < |asm| && asm[i] == R.Def(R.Global(f)) && asm[j] == R.Def(R.Epilogue(f))
  {
    hide WellFormed, UnitOk, Asm, Find;
    var p := Linkable(u, 0, map[]);
    var asm := Asm(p);
    LineOfDefined(u, f);
    FindIs(p.code, Func(f));
    var k := Find(p.code, Func(f));
    EndIsThere(p.code, f, k);
    var e: nat :| e < |p.code| && p.code[e] == EndFunc(f);
    LabelPosition(p, R.Global(f), k);
    LabelPosition(p, R.Epilogue(f), e);
    i, j := Find(asm, R.Def(R.Global(f))), Find(asm, R.Def(R.Epilogue(f)));
  }

  lemma EndIsThere(code: seq<Instr>, f: string, k: nat)
    requires WellFormed(code) && k < |code| && code[k] == Func(f)
    ensures EndFunc(f) in code
  {
    assert LineOk(code, k) && !code[k + 1].Func?;
    assert LineOk(code, k + 1);
    assert AsmGen.CurFunc(code, k + 1) == f;
  }

  /** As text, the symbols of an accepted program are all distinct if and only if no declared function or global
      is named like a defined function followed by _epilogue. */
  lemma SymbolsDistinctUnlessClash(ds: seq<TopDecl>)
    requires Compile(ds).Some? && NamesOk(Compile(ds).value)
    ensures SymbolsDistinct(Compile(ds).value, Asm(Linkable(Compile(ds).value, 0, map[]))) <==> !Clash(Compile(ds).value)
  {
    hide UnitOk, Compile, Asm, Text, Apart;
    var u := Compile(ds).value;
    UnitOfCompile(ds);
    if Clash(u) { ClashIsDuplicate(u); } else { NoClashNoDuplicate(u); }
  }

  lemma ClashIsDuplicate(u: Unit)
    requires UnitOk(u) && Clash(u)
    ensures !SymbolsDistinct(u, Asm(Linkable(u, 0, map[])))
  {
    hide UnitOk, Asm;
    var f :| f in u.defined && (f + "_epilogue" in u.ctx.funcs || f + "_epilogue" in u.ctx.globals);
    var i, j := LabelsOfDefined(u, f);
    assert Text(Asm(Linkable(u, 0, map[]))[j].l) == f + "_epilogue";
  }

  lemma NoClashNoDuplicate(u: Unit)
    requires UnitOk(u) && Apart(u) && NamesOk(u) && !Clash(u)
    ensures SymbolsDistinct(u, Asm(Linkable(u, 0, map[])))
  {
    hide UnitOk, Asm, Text, Clash, NamesOk, Apart;
    var p := Linkable(u, 0, map[]);
    var asm := Asm(p);
    UnitWellFormed(u);
    forall i, j | 0 <= i < j < |asm| && asm[i].Def? && asm[j].Def? ensures Text(asm[i].l) != Text(asm[j].l) {
      LabelsAreNamed(u, i);
      LabelsAreNamed(u, j);
      DefPosition(p, i, asm[i].l);
      DefPosition(p, j, asm[j].l);
      if Text(asm[i].l) == Text(asm[j].l) { TextInjective(u, asm[i].l, asm[j].l); }
    }
    forall i | 0 <= i < |asm| && asm[i].Def?
      ensures Text(asm[i].l) !in u.ctx.globals && (Text(asm[i].l) in u.ctx.funcs ==> asm[i].l.Global?)
    {
      LabelsAreNamed(u, i);
      LabelIsNoOther(u, asm[i].l);
    }
  }

  lemma UnitWellFormed(u: Unit)
    requires UnitOk(u)
    ensures WellFormed(u.code)
  {
  }

  lemma LabelIsNoOther(u: Unit, l: R.AsmLabel)
    requires Apart(u) && NamesOk(u) && !Clash(u) && Named(u, l)
    ensures Text(l) !in u.ctx.globals && (Text(l) in u.ctx.funcs ==> l.Global?)
  {
    hide Stem, Decimal;
    TextFirst(l);
  }
}
