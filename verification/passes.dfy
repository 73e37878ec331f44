/**
  `RiscOAssembler.assemble`: the two passes over a whole source text.
  Pass 1 walks the lines, records every `label:` prefix in the symbol
  table with the address of the next instruction, and keeps the
  instruction text of each line that has one; pass 2 encodes those
  instructions, numbered 0, 1, 2, ..., against the complete table and
  prints one `%04X %04X` line per instruction.
 */
module Passes {
  import opened Results
  import opened AsmText
  import opened Literals
  import Assembler

  // ----- pass 1 -----

  /** One source line as pass 1 reads it: comment cut and trailing
      whitespace dropped; a blank result contributes nothing; otherwise
      the `label:` prefixes in order and the stripped text after them. */
  function LineItems(line: string): (r: (seq<string>, string))
    ensures forall i | 0 <= i < |r.0| :: IsIdentifier(r.0[i])
    ensures Trimmed(r.1)
  {
    var code := RStrip(StripComment(line));
    if Strip(code) == [] then ([], [])
    else
      var peeled := PeelLabels(code);
      (peeled.0, Strip(peeled.1))
  }

  /** `symbol_table[label] = address` for each label, in order. */
  function Define(syms: map<string, nat>, labels: seq<string>, address: nat): (r: map<string, nat>)
    ensures r.Keys == syms.Keys + set l | l in labels
    ensures forall l | l in labels :: r[l] == address
    ensures forall l | l in syms && l !in labels :: r[l] == syms[l]
    decreases |labels|
  {
    if labels == [] then syms
    else Define(syms[labels[0] := address], labels[1..], address)
  }

  /** One line read by pass 1: its labels and its instruction text,
      which is empty when the line has none. */
  type Item = (seq<string>, string)

  /** Every line of the text read by LineItems. */
  function Items(lines: seq<string>): (items: seq<Item>)
    ensures |items| == |lines|
  {
    seq(|lines|, k requires 0 <= k < |lines| => LineItems(lines[k]))
  }

  /** What pass 1 hands to pass 2: the symbol table and the instruction
      lines, the instruction at address i being `program[i]`. */
  datatype Pass1 = Pass1(symbols: map<string, nat>, program: seq<string>)

  /** Pass 1 over the lines seen so far: the last line's labels name the
      address the next instruction gets, which is the number of
      instructions before it. */
  function Scan(items: seq<Item>): (p: Pass1)
    ensures forall l | l in p.symbols :: p.symbols[l] <= |p.program|
    decreases |items|
  {
    if items == [] then Pass1(map[], [])
    else
      var p := Scan(items[..|items| - 1]);
      var (labels, code) := items[|items| - 1];
      var syms := Define(p.symbols, labels, |p.program|);
      Pass1(syms, if code == [] then p.program else p.program + [code])
  }

  /** The instruction lines of a text, read front to back: each line
      with instruction text contributes it, the others nothing. */
  function Code(items: seq<Item>): seq<string>
  {
    if items == [] then []
    else (if items[0].1 == [] then [] else [items[0].1]) + Code(items[1..])
  }

  /** Some line of the text carries `name:`. */
  predicate Labels(items: seq<Item>, name: string)
  {
    exists k | 0 <= k < |items| :: name in items[k].0
  }

  // ----- pass 2 -----

  /** `encode(line, addr)` for every instruction line at its address. */
  function Encoded(program: seq<string>, syms: map<string, nat>): (rs: seq<Result<nat, Assembler.Failure>>)
    ensures |rs| == |program|
  {
    seq(|program|, i requires 0 <= i < |program| => Assembler.EncodeLine(program[i], i, syms))
  }

  /** The `for addr, line in processed_lines` loop: the words in order,
      or the failure of the first line that raises. */
  function Collect(rs: seq<Result<nat, Assembler.Failure>>): (r: Result<seq<nat>, Assembler.Failure>)
    ensures r.Ok? ==> |r.value| == |rs| && forall i | 0 <= i < |rs| :: rs[i] == Ok(r.value[i])
    ensures r.Err? ==> exists i | 0 <= i < |rs| ::
      rs[i] == Err(r.error) && forall j | 0 <= j < i :: rs[j].Ok?
    decreases |rs|
  {
    if rs == [] then Ok([])
    else
      var last := |rs| - 1;
      match Collect(rs[..last])
      case Err(e) =>
        FirstFailureExtends(rs, last, e);
        Err(e)
      case Ok(words) =>
        match rs[last]
        case Err(e) => Err(e)
        case Ok(w) => Ok(words + [w])
  }

  /** The first failing line of a prefix is the first failing line of the
      whole. */
  lemma FirstFailureExtends(rs: seq<Result<nat, Assembler.Failure>>, k: nat, e: Assembler.Failure)
    requires k <= |rs|
    requires exists i | 0 <= i < k :: rs[..k][i] == Err(e) && forall j | 0 <= j < i :: rs[..k][j].Ok?
    ensures exists i | 0 <= i < |rs| :: rs[i] == Err(e) && forall j | 0 <= j < i :: rs[j].Ok?
  {
    var i :| 0 <= i < k && rs[..k][i] == Err(e) && forall j | 0 <= j < i :: rs[..k][j].Ok?;
    assert rs[i] == rs[..k][i];
    forall j | 0 <= j < i
      ensures rs[j].Ok?
    {
      assert rs[j] == rs[..k][j];
    }
  }

  /** The printed listing: line i is `f"{i:04X} {word:04X}"`. */
  function Listing(words: seq<nat>): (out: seq<string>)
    ensures |out| == |words|
    ensures forall i | 0 <= i < |words| :: out[i] == FormatLine(i, words[i])
  {
    seq(|words|, i requires 0 <= i < |words| => FormatLine(i, words[i]))
  }

  /** `assemble(asm_text)`: the listing, or the failure that makes the
      source raise. */
  function Assemble(text: string): (r: Result<seq<string>, Assembler.Failure>)
  {
    Pass2(Scan(Items(SplitLines(text))))
  }

  /** Pass 2 and the printing of its words. */
  function Pass2(p: Pass1): (r: Result<seq<string>, Assembler.Failure>)
  {
    match Collect(Encoded(p.program, p.symbols))
    case Err(e) => Err(e)
    case Ok(words) => Ok(Listing(words))
  }

  // ----- properties of pass 1 -----

  /** Pass 1 keeps exactly the instruction lines, in source order. */
  lemma {:induction false} ScanProgram(items: seq<Item>)
    ensures Scan(items).program == Code(items)
    decreases |items|
  {
    if items != [] {
      var init, last := items[..|items| - 1], items[|items| - 1];
      ScanProgram(init);
      CodeAppend(init, last);
      assert items == init + [last];
    }
  }

  /** Code distributes over appending one line. */
  lemma {:induction false} CodeAppend(items: seq<Item>, line: Item)
    ensures Code(items + [line]) == Code(items) + Code([line])
    decreases |items|
  {
    if items != [] {
      assert (items + [line])[1..] == items[1..] + [line];
      CodeAppend(items[1..], line);
    }
  }

  /** The symbol table holds exactly the names some line labels. */
  lemma {:induction false} ScanSymbols(items: seq<Item>, name: string)
    ensures name in Scan(items).symbols <==> Labels(items, name)
    decreases |items|
  {
    if items != [] {
      var init := items[..|items| - 1];
      ScanSymbols(init, name);
      if Labels(init, name) {
        var k :| 0 <= k < |init| && name in init[k].0;
        assert items[k] == init[k];
      }
      if Labels(items, name) && name !in items[|items| - 1].0 {
        var k :| 0 <= k < |items| && name in items[k].0;
        assert init[k] == items[k];
      }
    }
  }

  /** A name labelled last on line k stands for the number of
      instructions on the lines before k: the address of the next
      instruction. A label defined twice keeps its later address. */
  lemma {:induction false} ScanLabel(items: seq<Item>, k: nat, name: string)
    requires k < |items| && name in items[k].0
    requires forall j | k < j < |items| :: name !in items[j].0
    ensures name in Scan(items).symbols
    ensures Scan(items).symbols[name] == |Code(items[..k])|
    decreases |items|
  {
    var init := items[..|items| - 1];
    ScanProgram(items[..k]);
    if k < |items| - 1 {
      assert init[..k] == items[..k];
      ScanLabel(init, k, name);
    } else {
      assert init == items[..k];
    }
  }

  /** The instruction at the address a line's labels receive is the text
      of the first line from there on that has any. */
  lemma {:induction false} LabelTarget(items: seq<Item>, k: nat, j: nat)
    requires k <= j < |items|
    requires forall x | k <= x < j :: items[x].1 == []
    requires items[j].1 != []
    ensures |Code(items[..k])| == |Code(items[..j])| < |Code(items)|
    ensures Code(items)[|Code(items[..k])|] == items[j].1
    decreases j - k
  {
    if k < j {
      LabelTarget(items, k + 1, j);
      assert items[..k + 1] == items[..k] + [items[k]];
      CodeAppend(items[..k], items[k]);
      assert Code([items[k]]) == [];
    } else {
      CodeSplit(items, j);
      assert items[j..][0] == items[j];
    }
  }

  /** The instruction items of a text are those before line k followed
      by those from k on. */
  lemma {:induction false} CodeSplit(items: seq<Item>, k: nat)
    requires k <= |items|
    ensures Code(items) == Code(items[..k]) + Code(items[k..])
    decreases k
  {
    if k > 0 {
      assert items[..k][1..] == items[1..][..k - 1];
      assert items[k..] == items[1..][k - 1..];
      CodeSplit(items[1..], k - 1);
    } else {
      assert items[k..] == items;
    }
  }

  /** A label defined on line k, and on no later line, is entered with the
      address at which pass 1 keeps the first instruction text on line k
      or after it: the text of line j, when lines k to j - 1 hold none. */
  lemma LabelAddress(lines: seq<string>, k: nat, j: nat, name: string)
    requires k <= j < |lines| && name in LineItems(lines[k]).0
    requires forall x | k <= x < j :: LineItems(lines[x]).1 == []
    requires LineItems(lines[j]).1 != []
    requires forall x | k < x < |lines| :: name !in LineItems(lines[x]).0
    ensures var p := Scan(Items(lines));
      && name in p.symbols && p.symbols[name] < |p.program|
      && p.program[p.symbols[name]] == LineItems(lines[j]).1
  {
    var items := Items(lines);
    LabelItems(lines, items, k, j, name);
    ScanLabelTarget(items, k, j, name);
  }

  /** `LabelAddress` over pass 1's items: a label of item k that no later
      item defines again addresses the text of item j, the first item from
      k on that has any. */
  lemma ScanLabelTarget(items: seq<Item>, k: nat, j: nat, name: string)
    requires k <= j < |items| && name in items[k].0
    requires forall x | k <= x < j :: items[x].1 == []
    requires items[j].1 != []
    requires forall x | k < x < |items| :: name !in items[x].0
    ensures var p := Scan(items);
      && name in p.symbols && p.symbols[name] < |p.program|
      && p.program[p.symbols[name]] == items[j].1
  {
    ScanLabel(items, k, name);
    LabelTarget(items, k, j);
    ScanProgram(items);
  }

  /** The premises of `LabelAddress`, read off the items of the lines. */
  lemma LabelItems(lines: seq<string>, items: seq<Item>, k: nat, j: nat, name: string)
    requires items == Items(lines)
    requires k <= j < |lines| && name in LineItems(lines[k]).0
    requires forall x | k <= x < j :: LineItems(lines[x]).1 == []
    requires LineItems(lines[j]).1 != []
    requires forall x | k < x < |lines| :: name !in LineItems(lines[x]).0
    ensures k <= j < |items| && name in items[k].0
    ensures forall x | k <= x < j :: items[x].1 == []
    ensures items[j].1 == LineItems(lines[j]).1 != []
    ensures forall x | k < x < |items| :: name !in items[x].0
  {
    forall x | 0 <= x < |lines|
      ensures items[x] == LineItems(lines[x])
    {
      ItemAt(lines, x);
    }
  }

  lemma ItemAt(lines: seq<string>, x: nat)
    requires x < |lines|
    ensures Items(lines)[x] == LineItems(lines[x])
  {
  }

  /** The same for a line spelled `n1: n2: ... text`: each of its names
      that no later line defines again addresses `text`. */
  lemma SpelledLabelAddress(lines: seq<string>, k: nat, names: seq<string>, m: nat, text: string)
    requires k < |lines| && lines[k] == LabelPrefix(names) + text
    requires forall i | 0 <= i < |names| :: IsIdentifier(names[i])
    requires text != [] && Trimmed(text)
    requires CommentFree(text) && MatchLabel(text) == None
    requires m < |names|
    requires forall j | k < j < |lines| :: names[m] !in LineItems(lines[j]).0
    ensures var p := Scan(Items(lines));
      names[m] in p.symbols && p.symbols[names[m]] < |p.program| && p.program[p.symbols[names[m]]] == text
  {
    LabelledLine(names, text);
    LabelAddress(lines, k, k, names[m]);
  }

  // ----- properties of the whole assembly -----

  /** The outcome of pass 2 over a program: one listing line per
      instruction, in address order, each printing its address and the
      word `encode` gives it; or the failure of the first instruction
      that raises. */
  predicate Lists(r: Result<seq<string>, Assembler.Failure>, program: seq<string>, syms: map<string, nat>)
  {
    var rs := Encoded(program, syms);
    match r
    case Ok(out) => |out| == |program| && forall i | 0 <= i < |program| ::
      rs[i].Ok? && out[i] == FormatLine(i, rs[i].value)
    case Err(e) => exists i | 0 <= i < |program| ::
      rs[i] == Err(e) && forall j | 0 <= j < i :: rs[j].Ok?
  }

  /** The assembler lists the instructions pass 1 keeps, encoded against
      the complete symbol table, so a label used before its definition
      resolves. */
  lemma AssembleListing(text: string)
    ensures var items := Items(SplitLines(text));
      Lists(Assemble(text), Code(items), Scan(items).symbols)
  {
    var items := Items(SplitLines(text));
    ScanProgram(items);
    Pass2Listing(Scan(items));
  }

  lemma Pass2Listing(p: Pass1)
    ensures Lists(Pass2(p), p.program, p.symbols)
  {
  }

  /** A line of whitespace, or one that is all comment, gives neither a
      label nor an instruction. */
  lemma BlankLine(line: string, comment: string)
    requires forall i | 0 <= i < |line| :: IsSpace(line[i])
    ensures LineItems(line) == ([], [])
    ensures LineItems(line + ";" + comment) == ([], [])
    ensures LineItems(line + "//" + comment) == ([], [])
  {
    SpacesBeforeComment(line, ";" + comment);
    SpacesBeforeComment(line, "//" + comment);
    assert line + ";" + comment == line + (";" + comment);
    assert line + "//" + comment == line + ("//" + comment);
    SpacesBeforeComment(line, []);
    assert line + [] == line;
    StripBlank(RStrip(line));
  }

  /** Whitespace in front of a comment: the cut keeps just the whitespace. */
  lemma {:induction false} SpacesBeforeComment(line: string, comment: string)
    requires forall i | 0 <= i < |line| :: IsSpace(line[i])
    requires comment == [] || CommentAt(comment, 0)
    ensures StripComment(line + comment) == line
    decreases |line|
  {
    if line != [] {
      assert (line + comment)[1..] == line[1..] + comment;
      SpacesBeforeComment(line[1..], comment);
    } else {
      assert line + comment == comment;
    }
  }

  /** What pass 2 sees of a line holds no comment marker. */
  lemma NoCommentLeft(line: string)
    ensures CommentFree(LineItems(line).1)
  {
    var code := RStrip(StripComment(line));
    CodeCommentFree(line);
    if Strip(code) != [] {
      TextCommentFree(code);
    }
  }

  /** The line with its comment and trailing whitespace cut. */
  lemma CodeCommentFree(line: string)
    ensures CommentFree(RStrip(StripComment(line)))
  {
    var cut := StripComment(line);
    var code := RStrip(cut);
    StripCommentFree(line);
    CommentFreeSlice(cut, 0, |code|);
    assert cut[0..|code|] == code;
  }

  /** The text after the labels of a comment-free line, stripped. */
  lemma TextCommentFree(code: string)
    requires CommentFree(code)
    ensures CommentFree(Strip(PeelLabels(code).1))
  {
    PeelLabelsSuffix(code);
    SuffixCommentFree(code, PeelLabels(code).1);
    StripKeepsCommentFree(PeelLabels(code).1);
  }

  lemma SuffixCommentFree(s: string, t: string)
    requires CommentFree(s) && |t| <= |s| && t == s[|s| - |t|..]
    ensures CommentFree(t)
  {
    CommentFreeSlice(s, |s| - |t|, |s|);
    assert s[|s| - |t|..|s|] == t;
  }

  lemma StripKeepsCommentFree(s: string)
    requires CommentFree(s)
    ensures CommentFree(Strip(s))
  {
    var l := LStrip(s);
    SuffixCommentFree(s, l);
    PrefixOfCommentFree(l, RStrip(l));
  }

  lemma PrefixOfCommentFree(s: string, t: string)
    requires CommentFree(s) && |t| <= |s| && t == s[..|t|]
    ensures CommentFree(t)
  {
    CommentFreeSlice(s, 0, |t|);
    assert s[0..|t|] == t;
  }

  /** `name1: name2: ... ` written in front of an instruction. */
  function LabelPrefix(names: seq<string>): string
  {
    if names == [] then [] else names[0] + ": " + LabelPrefix(names[1..])
  }

  /** A line with any number of `name:` prefixes before a text that is
      trimmed, comment-free and no label itself gives those names, in
      order, and that text. */
  lemma {:induction false} LabelledLine(names: seq<string>, text: string)
    requires forall i | 0 <= i < |names| :: IsIdentifier(names[i])
    requires text != [] && Trimmed(text)
    requires CommentFree(text) && MatchLabel(text) == None
    ensures LineItems(LabelPrefix(names) + text) == (names, text)
  {
    var line := LabelPrefix(names) + text;
    PrefixCommentFree(names, text);
    StripCommentWhole(line);
    assert line[|line| - 1] == text[|text| - 1];
    assert RStrip(line) == line;
    PrefixStart(names, text);
    StripBlank(line);
    PeelPrefix(names, text);
    StripTrimmed(text);
  }

  /** The label loop peels the prefixes one by one and stops at the text. */
  lemma {:induction false} PeelPrefix(names: seq<string>, text: string)
    requires forall i | 0 <= i < |names| :: IsIdentifier(names[i])
    requires text != [] && !IsSpace(text[0]) && MatchLabel(text) == None
    ensures PeelLabels(LabelPrefix(names) + text) == (names, text)
    decreases |names|
  {
    if names == [] {
      assert LabelPrefix(names) + text == text;
    } else {
      PeelPrefix(names[1..], text);
      PeelFirst(names, text);
    }
  }

  /** One more label in front of a peeled prefix is peeled first. */
  lemma PeelFirst(names: seq<string>, text: string)
    requires forall i | 0 <= i < |names| :: IsIdentifier(names[i])
    requires names != [] && text != [] && !IsSpace(text[0])
    requires PeelLabels(LabelPrefix(names[1..]) + text) == (names[1..], text)
    ensures PeelLabels(LabelPrefix(names) + text) == (names, text)
  {
    var rest := LabelPrefix(names[1..]) + text;
    PrefixCons(names, text);
    PrefixStart(names[1..], text);
    PeelCons(names[0], rest, names[1..], text);
    assert [names[0]] + names[1..] == names;
  }

  lemma PrefixCons(names: seq<string>, text: string)
    requires names != []
    ensures LabelPrefix(names) + text == names[0] + ": " + (LabelPrefix(names[1..]) + text)
  {
  }

  lemma PeelCons(name: string, rest: string, names: seq<string>, text: string)
    requires IsIdentifier(name) && rest != [] && !IsSpace(rest[0])
    requires PeelLabels(rest) == (names, text)
    ensures PeelLabels(name + ": " + rest) == ([name] + names, text)
  {
    LabelLineMatches(name, rest);
    PeelStep(name + ": " + rest, name, rest);
  }

  /** A prefixed line starts with a label or, without labels, the text. */
  lemma PrefixStart(names: seq<string>, text: string)
    requires forall i | 0 <= i < |names| :: IsIdentifier(names[i])
    requires text != [] && !IsSpace(text[0])
    ensures var t := LabelPrefix(names) + text; t != [] && !IsSpace(t[0])
  {
    if names != [] {
      assert (LabelPrefix(names) + text)[0] == names[0][0];
    } else {
      assert LabelPrefix(names) + text == text;
    }
  }

  lemma LabelLineMatches(name: string, text: string)
    requires IsIdentifier(name)
    requires text != [] && !IsSpace(text[0])
    ensures MatchLabel(name + ": " + text) == Some((name, text))
  {
    assert name + ": " + text == [] + name + [] + ":" + (" " + text);
    MatchLabelComplete([], name, [], " " + text);
    assert LStrip(" " + text) == text by {
      assert (" " + text)[1..] == text;
    }
  }

  /** One turn of the label loop. */
  lemma PeelStep(line: string, name: string, rest: string)
    requires MatchLabel(line) == Some((name, rest))
    ensures PeelLabels(line) == ([name] + PeelLabels(rest).0, PeelLabels(rest).1)
  {
  }

  /** Labels and `: ` bring no comment marker into a line. */
  lemma {:induction false} PrefixCommentFree(names: seq<string>, text: string)
    requires forall i | 0 <= i < |names| :: IsIdentifier(names[i])
    requires CommentFree(text)
    ensures CommentFree(LabelPrefix(names) + text)
    decreases |names|
  {
    if names == [] {
      assert LabelPrefix(names) + text == text;
    } else {
      var rest := LabelPrefix(names[1..]) + text;
      PrefixCommentFree(names[1..], text);
      var line := names[0] + ": " + rest;
      assert LabelPrefix(names) + text == line;
      var n := |names[0]|;
      assert forall i | 0 <= i < n :: line[i] == names[0][i];
      assert forall i | n + 2 <= i < |line| :: line[i] == rest[i - n - 2];
      forall i | 0 <= i < |line|
        ensures !CommentAt(line, i)
      {
        if i >= n + 2 {
          assert !CommentAt(rest, i - n - 2);
        }
      }
    }
  }

  /** `re.sub` leaves a comment-free line alone. */
  lemma StripCommentWhole(s: string)
    requires CommentFree(s)
    ensures StripComment(s) == s
  {
  }
}
