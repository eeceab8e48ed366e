/** The fingerprint language: parsing of program files, and what their text means. */
module Compilers {
  import opened Options
  import opened SnapResult
  import opened Fingerprints
  import opened TextFiles

  predicate IsComment(line: string) { line != "" && line[0] == '#' }

  predicate OpensFunction(line: string) { line != "" && line[|line| - 1] == '{' }

  function Header(name: FunctionName): string {
    match name
    case Sha256 => "Sha256 {"
    case CutBit => "Cut_bit {"
    case CutByte => "Cut_byte {"
  }

  function NameOf(header: string): Option<FunctionName> {
    if header == Header(Sha256) then Some(Sha256)
    else if header == Header(CutBit) then Some(CutBit)
    else if header == Header(CutByte) then Some(CutByte)
    else None
  }

  /** One call of the reader: the node it attaches, if any, and the next line to read. */
  datatype Parsed = Parsed(node: Option<Node>, next: nat)

  function Attach(args: seq<Node>, node: Option<Node>): seq<Node> {
    if node.Some? then args + [node.value] else args
  }

  /** read_line, outside of a function. */
  function ReadLine(lines: seq<string>, n: nat): (r: Result<Parsed>)
    ensures r.Ok? ==> r.value.next > n
    decreases |lines| - n, 0
  {
    var line := LineAt(lines, n);
    if line == "" then Ok(Parsed(None, n + 1))
    else if IsComment(line) then ReadLine(lines, n + 1)
    else if line == "}" then Err(BadSyntax)
    else if OpensFunction(line) then
      var name := NameOf(line);
      if name.None? then Err(BadSyntax)
      else
        var first :- ReadLine(lines, n + 1);
        ReadArgs(lines, first.next, name.value, Attach([], first.node))
    else if line[0] == '>' then Ok(Parsed(Some(Getter(line[1..])), n + 1))
    else Ok(Parsed(Some(Value(line)), n + 1))
  }

  /** read_line, inside of a function whose arguments so far are `args`. */
  function ReadArgs(lines: seq<string>, n: nat, name: FunctionName, args: seq<Node>): (r: Result<Parsed>)
    ensures r.Ok? ==> r.value.next > n
    decreases |lines| - n, 1
  {
    var line := LineAt(lines, n);
    if line == "" then Err(BadSyntax)
    else if IsComment(line) then ReadArgs(lines, n + 1, name, args)
    else if line == "}" then Ok(Parsed(Some(Function(name, args)), n + 1))
    else
      var arg :- ReadLine(lines, n);
      ReadArgs(lines, arg.next, name, Attach(args, arg.node))
  }

  /** get_executable_tree: the child of the root node, if any. */
  function Compile(lines: seq<string>): Result<Option<Node>> {
    var p :- ReadLine(lines, 0);
    if LineAt(lines, p.next) != "" then Err(BadSyntax) else Ok(p.node)
  }

  // ---------- the reader's loop ----------

  /** Where the loop of read_line stands: outside, or inside a function. */
  function Continue(lines: seq<string>, n: nat, fn: Option<(FunctionName, seq<Node>)>): Result<Parsed> {
    if fn.None? then ReadLine(lines, n) else ReadArgs(lines, n, fn.value.0, fn.value.1)
  }

  method ReadLineLoop(file: TextFile, start: nat) returns (r: Result<Parsed>)
    ensures r == ReadLine(Lines(file.text), start)
    decreases |Lines(file.text)| - start
  {
    hide Lines;
    ghost var lines := Lines(file.text);
    var newNode: Option<Node> := None;
    var fn: Option<(FunctionName, seq<Node>)> := None;
    var next := start;
    while newNode.None?
      invariant start <= next && (fn.Some? ==> start < next)
      invariant newNode.None? ==> ReadLine(lines, start) == Continue(lines, next, fn)
      invariant newNode.Some? ==> fn.None? && ReadLine(lines, start) == Ok(Parsed(newNode, next + 1))
      decreases newNode.None?, if next < |lines| then |lines| - next else 0
    {
      var line := file.GetLine(next);
      if line == "" {
        break;
      } else if line[0] == '#' {
        next := next + 1;
      } else if line[0] == '}' && |line| == 1 {
        assert line == "}";
        if fn.None? {
          return Err(BadSyntax);
        }
        newNode := Some(Function(fn.value.0, fn.value.1));
        fn := None;
      } else if fn.Some? {
        var arg := ReadLineLoop(file, next);
        if arg.Err? {
          return arg;
        }
        fn := Some((fn.value.0, Attach(fn.value.1, arg.value.node)));
        next := arg.value.next;
      } else if line[|line| - 1] == '{' {
        var name := NameOf(line);
        if name.None? {
          return Err(BadSyntax);
        }
        var first := ReadLineLoop(file, next + 1);
        if first.Err? {
          return first;
        }
        fn := Some((name.value, Attach([], first.value.node)));
        next := first.value.next;
      } else if line[0] == '>' {
        newNode := Some(Getter(line[1..]));
      } else {
        newNode := Some(Value(line));
      }
    }
    if fn.Some? {
      return Err(BadSyntax);
    }
    return Ok(Parsed(newNode, next + 1));
  }

  method GetExecutableTree(file: TextFile) returns (r: Result<Option<Node>>)
    ensures r == Compile(Lines(file.text))
  {
    hide Lines, ReadLine;
    var p := ReadLineLoop(file, 0);
    if p.Err? {
      return Err(p.error);
    }
    var line := file.GetLine(p.value.next);
    if line != "" {
      return Err(BadSyntax);
    }
    return Ok(p.value.node);
  }

  // ---------- programs as text ----------

  /** The lines of a program, one token a line. */
  function Render(node: Node): seq<string>
    decreases node, 0
  {
    match node
    case Value(text) => [text]
    case Getter(field) => [">" + field]
    case Function(name, args) => [Header(name)] + RenderAll(args) + ["}"]
  }

  function RenderAll(args: seq<Node>): seq<string>
    decreases args, 1
  {
    if args == [] then [] else Render(args[0]) + RenderAll(args[1..])
  }

  /** Functions have arguments, and leaves read as what they are. */
  predicate WellFormed(node: Node)
    decreases node, 0
  {
    match node
    case Value(text) => IsValueLine(text)
    case Getter(field) => !OpensFunction(field)
    case Function(_, args) => args != [] && forall a | a in args :: WellFormed(a)
  }

  predicate IsValueLine(text: string) {
    text != "" && text[0] != '#' && text[0] != '>' && text != "}" && !OpensFunction(text)
  }

  /** The lines that are not comments. */
  function Strip(lines: seq<string>): seq<string> {
    if lines == [] then []
    else if IsComment(lines[0]) then Strip(lines[1..])
    else [lines[0]] + Strip(lines[1..])
  }

  predicate NoBlank(lines: seq<string>) {
    forall i :: 0 <= i < |lines| ==> lines[i] != ""
  }

  lemma StripStep(lines: seq<string>, n: nat)
    requires n < |lines|
    ensures Strip(lines[n..]) ==
            (if IsComment(lines[n]) then [] else [lines[n]]) + Strip(lines[n + 1..])
  {
    assert lines[n..][1..] == lines[n + 1..];
  }

  // ---------- every rendering is read back ----------

  lemma ReadComment(lines: seq<string>, n: nat)
    requires n < |lines| && IsComment(lines[n])
    ensures ReadLine(lines, n) == ReadLine(lines, n + 1)
  {
  }

  lemma ReadLeaf(lines: seq<string>, n: nat, t: Node)
    requires n < |lines| && WellFormed(t) && !t.Function? && lines[n] == Render(t)[0]
    ensures ReadLine(lines, n) == Ok(Parsed(Some(t), n + 1))
  {
  }

  lemma ReadFunction(lines: seq<string>, n: nat, name: FunctionName, first: Node, k: nat)
    requires n < |lines| && lines[n] == Header(name)
    requires ReadLine(lines, n + 1) == Ok(Parsed(Some(first), k))
    ensures ReadLine(lines, n) == ReadArgs(lines, k, name, [first])
  {
    HeaderNames(name);
    assert Attach([], Some(first)) == [first];
  }

  /** If what follows, without comments, starts with the rendering of t, the reader returns t and stops right
      behind it. */
  lemma {:induction false} ReadsTree(lines: seq<string>, n: nat, t: Node, rest: seq<string>) returns (m: nat)
    requires WellFormed(t) && n <= |lines| && Strip(lines[n..]) == Render(t) + rest
    ensures n < m <= |lines| && Strip(lines[m..]) == rest
    ensures ReadLine(lines, n) == Ok(Parsed(Some(t), m))
    decreases |lines| - n, 1
  {
    hide ReadLine, ReadArgs, IsComment, WellFormed, Strip;
    RenderStarts(t);
    NotAtEnd(lines, n);
    StripStep(lines, n);
    if IsComment(lines[n]) {
      assert [] + Strip(lines[n + 1..]) == Strip(lines[n + 1..]);
      ReadComment(lines, n);
      m := ReadsTree(lines, n + 1, t, rest);
    } else {
      HeadAndTail(lines[n], Strip(lines[n + 1..]), Render(t), rest);
      if t.Function? {
        WellFormedArgs(t);
        var tail := RenderAll(t.args[1..]) + ["}"] + rest;
        RenderFunction(t, rest);
        var k := ReadsTree(lines, n + 1, t.args[0], tail);
        m := ReadsArgs(lines, k, t.name, [t.args[0]], t.args[1..], rest);
        ReadFunction(lines, n, t.name, t.args[0], k);
        assert [t.args[0]] + t.args[1..] == t.args;
      } else {
        m := n + 1;
        ReadLeaf(lines, n, t);
        assert Render(t)[1..] + rest == rest;
      }
    }
  }

  lemma WellFormedArgs(t: Node)
    requires WellFormed(t) && t.Function?
    ensures t.args != [] && forall a | a in t.args :: WellFormed(a)
  {
  }

  lemma RenderFunction(t: Node, rest: seq<string>)
    requires t.Function? && t.args != []
    ensures Render(t)[0] == Header(t.name)
    ensures Render(t)[1..] + rest == Render(t.args[0]) + (RenderAll(t.args[1..]) + ["}"] + rest)
  {
    assert Render(t)[1..] == RenderAll(t.args) + ["}"];
  }

  lemma {:induction false} ReadsArgs(lines: seq<string>, n: nat, name: FunctionName, done: seq<Node>,
                                     args: seq<Node>, rest: seq<string>) returns (m: nat)
    requires n <= |lines| && (forall a | a in args :: WellFormed(a))
    requires Strip(lines[n..]) == RenderAll(args) + ["}"] + rest
    ensures n < m <= |lines| && Strip(lines[m..]) == rest
    ensures ReadArgs(lines, n, name, done) == Ok(Parsed(Some(Function(name, done + args)), m))
    decreases |lines| - n, 2
  {
    hide ReadLine, ReadArgs, Render, RenderAll, Strip, WellFormed, IsComment;
    NotAtEnd(lines, n);
    StripStep(lines, n);
    RenderAllStarts(args, rest);
    if IsComment(lines[n]) {
      assert [] + Strip(lines[n + 1..]) == Strip(lines[n + 1..]);
      ReadArgsComment(lines, n, name, done);
      m := ReadsArgs(lines, n + 1, name, done, args, rest);
    } else if args == [] {
      HeadAndTail(lines[n], Strip(lines[n + 1..]), ["}"], rest);
      ReadArgsEnd(lines, n, name, done);
      m := n + 1;
      assert done + args == done;
    } else {
      var tail := RenderAll(args[1..]) + ["}"] + rest;
      RenderStarts(args[0]);
      HeadAndTail(lines[n], Strip(lines[n + 1..]), Render(args[0]), tail);
      var k := ReadsTree(lines, n, args[0], tail);
      m := ReadsArgs(lines, k, name, done + [args[0]], args[1..], rest);
      ReadArgsOne(lines, n, name, done, args[0], k);
      assert done + [args[0]] + args[1..] == done + args;
    }
  }

  lemma NotAtEnd(lines: seq<string>, n: nat)
    requires n <= |lines|
    ensures Strip(lines[n..]) != [] ==> n < |lines|
  {
  }

  lemma RenderAllStarts(args: seq<Node>, rest: seq<string>)
    ensures RenderAll(args) + ["}"] + rest ==
            if args == [] then ["}"] + rest else Render(args[0]) + (RenderAll(args[1..]) + ["}"] + rest)
    ensures RenderAll(args) + ["}"] + rest != []
  {
  }

  lemma ReadArgsComment(lines: seq<string>, n: nat, name: FunctionName, done: seq<Node>)
    requires n < |lines| && IsComment(lines[n])
    ensures ReadArgs(lines, n, name, done) == ReadArgs(lines, n + 1, name, done)
  {
  }

  lemma ReadArgsEnd(lines: seq<string>, n: nat, name: FunctionName, done: seq<Node>)
    requires n < |lines| && lines[n] == "}"
    ensures ReadArgs(lines, n, name, done) == Ok(Parsed(Some(Function(name, done)), n + 1))
  {
  }

  lemma ReadArgsOne(lines: seq<string>, n: nat, name: FunctionName, done: seq<Node>, arg: Node, k: nat)
    requires n < |lines| && lines[n] != "" && !IsComment(lines[n]) && lines[n] != "}"
    requires ReadLine(lines, n) == Ok(Parsed(Some(arg), k))
    ensures ReadArgs(lines, n, name, done) == ReadArgs(lines, k, name, done + [arg])
  {
    hide ReadLine;
  }

  lemma HeadAndTail<T>(x: T, s: seq<T>, r: seq<T>, rest: seq<T>)
    requires r != []
    ensures [x] + s == r + rest ==> x == r[0] && s == r[1..] + rest
  {
    if [x] + s == r + rest {
      assert ([x] + s)[0] == x && ([x] + s)[1..] == s;
      assert (r + rest)[1..] == r[1..] + rest;
    }
  }

  lemma RenderStarts(t: Node)
    requires WellFormed(t)
    ensures Render(t) != [] && Render(t)[0] != "" && !IsComment(Render(t)[0]) && Render(t)[0] != "}"
  {
  }

  lemma HeaderNames(name: FunctionName)
    ensures NameOf(Header(name)) == Some(name) && OpensFunction(Header(name))
    ensures !IsComment(Header(name)) && Header(name) != "}"
  {
  }

  // ---------- whatever is read is a rendering ----------

  lemma ReadBlank(lines: seq<string>, n: nat)
    requires NoBlank(lines) && n <= |lines| && ReadLine(lines, n).Ok?
    ensures ReadLine(lines, n).value.node.None? ==> ReadLine(lines, n).value.next > |lines|
    decreases |lines| - n
  {
    hide Strip, NameOf;
    if n < |lines| && IsComment(lines[n]) {
      ReadBlank(lines, n + 1);
    } else if n < |lines| && lines[n] != "}" && OpensFunction(lines[n]) {
      ReadArgsNode(lines, ReadLine(lines, n + 1).value.next, NameOf(lines[n]).value,
                   Attach([], ReadLine(lines, n + 1).value.node));
    }
  }

  lemma {:induction false} ReadArgsNode(lines: seq<string>, n: nat, name: FunctionName, args: seq<Node>)
    requires ReadArgs(lines, n, name, args).Ok?
    ensures ReadArgs(lines, n, name, args).value.node.Some?
    decreases |lines| - n
  {
    hide ReadLine;
    if IsComment(LineAt(lines, n)) {
      ReadArgsNode(lines, n + 1, name, args);
    } else if LineAt(lines, n) != "}" {
      var arg := ReadLine(lines, n).value;
      ReadArgsNode(lines, arg.next, name, Attach(args, arg.node));
    }
  }

  /** A tree that is read without meeting a blank line is well formed, and the lines read, without their
      comments, are its rendering. */
  lemma {:induction false} TreeIsRendered(lines: seq<string>, n: nat, t: Node, m: nat)
    requires NoBlank(lines) && n <= |lines| && ReadLine(lines, n) == Ok(Parsed(Some(t), m))
    ensures n < m <= |lines| && WellFormed(t)
    ensures Strip(lines[n..]) == Render(t) + Strip(lines[m..]) && !IsComment(lines[m - 1])
    decreases |lines| - n, 1
  {
    hide ReadLine, ReadArgs, Strip, WellFormed, Render, ArgsRead, IsComment;
    NothingAtEnd(lines, n);
    StripStep(lines, n);
    if IsComment(lines[n]) {
      ReadComment(lines, n);
      TreeIsRendered(lines, n + 1, t, m);
      assert [] + Strip(lines[n + 1..]) == Strip(lines[n + 1..]);
    } else if OpensFunction(lines[n]) {
      var name, first := FunctionRead(lines, n);
      ReadBlank(lines, n + 1);
      var done := Attach([], first.node);
      if first.node.None? {
        BeyondTheEnd(lines, first.next, name, done);
      }
      TreeIsRendered(lines, n + 1, first.node.value, first.next);
      var args := ArgsAreRendered(lines, first.next, name, done);
      assert done == [first.node.value];
      ArgsReadMeans(lines, first.next, m, name, first.node.value, args);
      FunctionIsRendered(lines, n, m, name, first.node.value, args, Strip(lines[first.next..]));
    } else {
      LeafRead(lines, n);
    }
  }

  lemma NothingAtEnd(lines: seq<string>, n: nat)
    requires n <= |lines|
    ensures ReadLine(lines, n).Ok? && ReadLine(lines, n).value.node.Some? ==> n < |lines|
  {
  }

  lemma FunctionRead(lines: seq<string>, n: nat) returns (name: FunctionName, first: Parsed)
    requires n < |lines| && !IsComment(lines[n]) && OpensFunction(lines[n]) && ReadLine(lines, n).Ok?
    ensures lines[n] == Header(name) && ReadLine(lines, n + 1) == Ok(first)
    ensures ReadLine(lines, n) == ReadArgs(lines, first.next, name, Attach([], first.node))
  {
    hide ReadArgs;
    name, first := NameOf(lines[n]).value, ReadLine(lines, n + 1).value;
    NameIsHeader(lines[n]);
  }

  lemma LeafRead(lines: seq<string>, n: nat)
    requires n < |lines| && lines[n] != "" && !IsComment(lines[n]) && !OpensFunction(lines[n]) && ReadLine(lines, n).Ok?
    ensures var p := ReadLine(lines, n).value;
            p.node.Some? && p.next == n + 1 && WellFormed(p.node.value) && Render(p.node.value) == [lines[n]]
  {
    if lines[n][0] == '>' {
      assert ">" + lines[n][1..] == lines[n];
    }
  }

  lemma BeyondTheEnd(lines: seq<string>, n: nat, name: FunctionName, args: seq<Node>)
    requires n >= |lines|
    ensures ReadArgs(lines, n, name, args).Err?
  {
  }

  lemma NameIsHeader(line: string)
    requires NameOf(line).Some?
    ensures Header(NameOf(line).value) == line
  {
  }

  lemma ArgsReadMeans(lines: seq<string>, n: nat, m: nat, name: FunctionName, first: Node, args: seq<Node>)
    requires WellFormed(first) && ArgsRead(lines, n, m, name, [first], args)
    ensures WellFormed(Function(name, [first] + args)) && m <= |lines| && !IsComment(lines[m - 1])
    ensures ReadArgs(lines, n, name, [first]) == Ok(Parsed(Some(Function(name, [first] + args)), m))
    ensures Strip(lines[n..]) == RenderAll(args) + ["}"] + Strip(lines[m..])
  {
    hide ReadArgs, Strip;
  }

  lemma FunctionIsRendered(lines: seq<string>, n: nat, m: nat, name: FunctionName, first: Node,
                           args: seq<Node>, mid: seq<string>)
    requires n < m <= |lines| && lines[n] == Header(name)
    requires Strip(lines[n..]) == [lines[n]] + Strip(lines[n + 1..])
    requires Strip(lines[n + 1..]) == Render(first) + mid
    requires mid == RenderAll(args) + ["}"] + Strip(lines[m..])
    ensures Strip(lines[n..]) == Render(Function(name, [first] + args)) + Strip(lines[m..])
  {
    hide Strip;
    assert ([first] + args)[1..] == args;
  }

  /** Reading arguments from line n on adds `args` to `done` and ends the function just before line m. */
  ghost predicate ArgsRead(lines: seq<string>, n: nat, m: nat, name: FunctionName, done: seq<Node>,
                           args: seq<Node>)
  {
    && n < m <= |lines| && ReadArgs(lines, n, name, done) == Ok(Parsed(Some(Function(name, done + args)), m))
    && (forall a | a in args :: WellFormed(a)) && !IsComment(lines[m - 1])
    && Strip(lines[n..]) == RenderAll(args) + ["}"] + Strip(lines[m..])
  }

  lemma {:induction false} ArgsAreRendered(lines: seq<string>, n: nat, name: FunctionName, done: seq<Node>)
    returns (args: seq<Node>)
    requires NoBlank(lines) && n <= |lines| && ReadArgs(lines, n, name, done).Ok?
    ensures ArgsRead(lines, n, ReadArgs(lines, n, name, done).value.next, name, done, args)
    decreases |lines| - n, 2
  {
    hide Strip, ReadLine, ArgsRead, WellFormed, RenderAll;
    if n == |lines| {
      BeyondTheEnd(lines, n, name, done);
    }
    var m := ReadArgs(lines, n, name, done).value.next;
    if IsComment(lines[n]) {
      args := ArgsAreRendered(lines, n + 1, name, done);
      CommentRead(lines, n, m, name, done, args);
    } else if lines[n] == "}" {
      args := [];
      EndRead(lines, n, name, done);
    } else {
      var arg := ReadLine(lines, n).value;
      ReadBlank(lines, n);
      if arg.node.None? {
        BeyondTheEnd(lines, arg.next, name, done);
      }
      TreeIsRendered(lines, n, arg.node.value, arg.next);
      var more := ArgsAreRendered(lines, arg.next, name, done + [arg.node.value]);
      args := [arg.node.value] + more;
      ArgRead(lines, n, arg.next, m, name, done, arg.node.value, more);
    }
  }

  lemma CommentRead(lines: seq<string>, n: nat, m: nat, name: FunctionName, done: seq<Node>, args: seq<Node>)
    requires n < |lines| && IsComment(lines[n]) && ArgsRead(lines, n + 1, m, name, done, args)
    ensures ArgsRead(lines, n, m, name, done, args)
  {
  }

  lemma EndRead(lines: seq<string>, n: nat, name: FunctionName, done: seq<Node>)
    requires n < |lines| && lines[n] == "}"
    ensures ArgsRead(lines, n, n + 1, name, done, [])
  {
    hide Strip, WellFormed;
    StripStep(lines, n);
    assert done + [] == done;
  }

  lemma ArgRead(lines: seq<string>, n: nat, k: nat, m: nat, name: FunctionName, done: seq<Node>, arg: Node,
                more: seq<Node>)
    requires n < k <= |lines| && lines[n] != "" && !IsComment(lines[n]) && lines[n] != "}"
    requires WellFormed(arg) && ReadLine(lines, n) == Ok(Parsed(Some(arg), k))
    requires Strip(lines[n..]) == Render(arg) + Strip(lines[k..])
    requires ArgsRead(lines, k, m, name, done + [arg], more)
    ensures ArgsRead(lines, n, m, name, done, [arg] + more)
  {
    hide Strip, WellFormed, ReadLine, ReadArgs, Render, RenderAll, IsComment;
    var args := [arg] + more;
    assert done + [arg] + more == done + args && args[0] == arg && args[1..] == more;
    ReadArgsOne(lines, n, name, done, arg, k);
    RenderAllStarts(args, Strip(lines[m..]));
  }

  lemma {:induction false} OnlyComments(lines: seq<string>, n: nat)
    requires n < |lines| && Strip(lines[n..]) == []
    ensures IsComment(lines[|lines| - 1])
    decreases |lines| - n
  {
    StripStep(lines, n);
    if n + 1 < |lines| {
      OnlyComments(lines, n + 1);
    }
  }

  lemma RenderingCompiles(lines: seq<string>, t: Node)
    requires WellFormed(t) && Strip(lines) == Render(t) && lines != [] && !IsComment(lines[|lines| - 1])
    ensures Compile(lines) == Ok(Some(t))
  {
    hide ReadLine, Render, IsComment, WellFormed;
    assert lines[0..] == lines && Render(t) == Render(t) + [];
    var m := ReadsTree(lines, 0, t, []);
    if m < |lines| {
      OnlyComments(lines, m);
    }
  }

  lemma CompiledIsRendering(lines: seq<string>, t: Node)
    requires NoBlank(lines) && Compile(lines) == Ok(Some(t))
    ensures WellFormed(t) && Strip(lines) == Render(t) && lines != [] && !IsComment(lines[|lines| - 1])
  {
    hide ReadLine, Render, IsComment, WellFormed;
    var m := ReadLine(lines, 0).value.next;
    TreeIsRendered(lines, 0, t, m);
    assert lines[0..] == lines && m == |lines|;
    assert lines[m..] == [] && Strip([]) == [] && Render(t) + [] == Render(t);
  }

  /** Compiling undoes rendering, and nothing but renderings compile: a file without blank lines gives the tree t
      exactly when its lines without comments are the rendering of t and its last line is not a comment. */
  lemma CompileInvertsRender(lines: seq<string>, t: Node)
    requires NoBlank(lines)
    ensures Compile(lines) == Ok(Some(t)) <==>
            WellFormed(t) && Strip(lines) == Render(t) && lines != [] && !IsComment(lines[|lines| - 1])
  {
    hide *;
    if Compile(lines) == Ok(Some(t)) {
      CompiledIsRendering(lines, t);
    } else if WellFormed(t) && Strip(lines) == Render(t) && lines != [] && !IsComment(lines[|lines| - 1]) {
      RenderingCompiles(lines, t);
    }
  }

  /** A file without blank lines compiles to no tree at all exactly when it holds nothing but comments. */
  lemma CompilesToNothing(lines: seq<string>)
    requires NoBlank(lines)
    ensures Compile(lines) == Ok(None) <==> Strip(lines) == []
  {
    hide Strip;
    assert lines[0..] == lines;
    if Strip(lines) == [] {
      CommentsReadAsNothing(lines, 0);
    } else if Compile(lines) == Ok(None) {
      NothingReadIsComments(lines, 0);
    }
  }

  lemma {:induction false} StripTwice(lines: seq<string>)
    requires NoBlank(lines)
    ensures var code := Strip(lines);
            NoBlank(code) && Strip(code) == code && forall k :: 0 <= k < |code| ==> !IsComment(code[k])
  {
    if lines != [] {
      StripTwice(lines[1..]);
      hide IsComment;
    }
  }

  /** There is only one kind of error. */
  lemma {:induction false} ReadLineFails(lines: seq<string>, n: nat)
    ensures ReadLine(lines, n).Err? ==> ReadLine(lines, n).error == BadSyntax
    decreases |lines| - n, 0
  {
    hide OpensFunction, NameOf;
    var line := LineAt(lines, n);
    if IsComment(line) {
      ReadLineFails(lines, n + 1);
    } else if line != "" && line != "}" && OpensFunction(line) && NameOf(line).Some? {
      ReadLineFails(lines, n + 1);
      if ReadLine(lines, n + 1).Ok? {
        var first := ReadLine(lines, n + 1).value;
        ReadArgsFails(lines, first.next, NameOf(line).value, Attach([], first.node));
      }
    }
  }

  lemma {:induction false} ReadArgsFails(lines: seq<string>, n: nat, name: FunctionName, args: seq<Node>)
    ensures ReadArgs(lines, n, name, args).Err? ==> ReadArgs(lines, n, name, args).error == BadSyntax
    decreases |lines| - n, 1
  {
    var line := LineAt(lines, n);
    if IsComment(line) {
      ReadArgsFails(lines, n + 1, name, args);
    } else if line != "" && line != "}" {
      ReadLineFails(lines, n);
      if ReadLine(lines, n).Ok? {
        var arg := ReadLine(lines, n).value;
        ReadArgsFails(lines, arg.next, name, Attach(args, arg.node));
      }
    }
  }

  lemma CompileFails(lines: seq<string>)
    ensures Compile(lines).Err? ==> Compile(lines) == Err(BadSyntax)
  {
    hide ReadLine;
    ReadLineFails(lines, 0);
  }

  /** Comments are ignored, exactly unless the last line is one and the rest compiles to a tree. */
  lemma CommentsIgnoredExactly(lines: seq<string>)
    requires NoBlank(lines)
    ensures Compile(lines) == Compile(Strip(lines)) <==>
            !(lines != [] && IsComment(lines[|lines| - 1])
              && Compile(Strip(lines)).Ok? && Compile(Strip(lines)).value.Some?)
  {
    hide Compile, Strip, NoBlank, WellFormed, Render, IsComment;
    var code := Strip(lines);
    StripTwice(lines);
    CompileFails(lines);
    CompileFails(code);
    CompilesToNothing(lines);
    CompilesToNothing(code);
    if Compile(code).Ok? && Compile(code).value.Some? {
      CompileInvertsRender(code, Compile(code).value.value);
      CompileInvertsRender(lines, Compile(code).value.value);
      assert lines != [] by { StripNothing(lines); }
    } else if Compile(lines).Ok? && Compile(lines).value.Some? {
      CompileInvertsRender(lines, Compile(lines).value.value);
      CompileInvertsRender(code, Compile(lines).value.value);
      TreeHasLines(Compile(lines).value.value);
    }
  }

  lemma StripNothing(lines: seq<string>)
    ensures lines == [] ==> Strip(lines) == []
  {
  }

  lemma TreeHasLines(t: Node)
    ensures Render(t) != []
  {
  }

  lemma {:induction false} CommentsReadAsNothing(lines: seq<string>, n: nat)
    requires n <= |lines| && Strip(lines[n..]) == []
    ensures ReadLine(lines, n) == Ok(Parsed(None, |lines| + 1))
    decreases |lines| - n
  {
    hide Strip;
    if n < |lines| {
      StripStep(lines, n);
      CommentsReadAsNothing(lines, n + 1);
    }
  }

  lemma {:induction false} NothingReadIsComments(lines: seq<string>, n: nat)
    requires NoBlank(lines) && n <= |lines| && ReadLine(lines, n).Ok? && ReadLine(lines, n).value.node.None?
    ensures Strip(lines[n..]) == []
    decreases |lines| - n
  {
    hide ReadArgs;
    if n < |lines| {
      StripStep(lines, n);
      if IsComment(lines[n]) {
        NothingReadIsComments(lines, n + 1);
      } else if OpensFunction(lines[n]) {
        var first := ReadLine(lines, n + 1).value;
        ReadArgsNode(lines, first.next, NameOf(lines[n]).value, Attach([], first.node));
      }
    }
  }

  // ---------- the first blank line ----------

  /** Where a reader of tokens stands after some lines: `depth` functions are open; right behind an opening line, or
      at the start, an argument must follow; the tree is complete; or no line can make the file a program. */
  datatype Scan = Fresh(depth: nat) | Inside(depth: nat) | Complete | Broken

  function Outside(depth: nat): Scan {
    if depth == 0 then Complete else Inside(depth)
  }

  function ScanLine(st: Scan, line: string): Scan {
    if st.Broken? || st.Complete? then Broken
    else if IsComment(line) then st
    else if line == "}" then if st.Fresh? || st.depth == 0 then Broken else Outside(st.depth - 1)
    else if OpensFunction(line) then if NameOf(line).Some? then Fresh(st.depth + 1) else Broken
    else if st.Fresh? then Outside(st.depth)
    else st
  }

  function ScanFrom(lines: seq<string>, n: nat, st: Scan): Scan
    decreases |lines| - n
  {
    if n >= |lines| then st else ScanFrom(lines, n + 1, ScanLine(st, lines[n]))
  }

  /** The longer file goes on with a blank line. */
  ghost predicate Stops(lines: seq<string>, longer: seq<string>) {
    && NoBlank(lines) && |lines| < |longer| && longer[|lines|] == ""
    && forall i :: 0 <= i < |lines| ==> longer[i] == lines[i]
  }

  /** A blank line behind the opening line of a function is skipped. */
  lemma BlankAfterOpening(lines: seq<string>, n: nat, name: FunctionName)
    requires n + 1 < |lines| && lines[n] == Header(name) && lines[n + 1] == ""
    ensures ReadLine(lines, n) == ReadArgs(lines, n + 2, name, [])
  {
    HeaderNames(name);
    hide ReadArgs, Header, NameOf;
    assert ReadLine(lines, n + 1) == Ok(Parsed(None, n + 2));
    assert ReadLine(lines, n) == ReadArgs(lines, n + 2, name, Attach([], None));
  }

  /** Reading from line n is the same in both files, and stops inside of the shorter one, where the scan is outside
      of the tree. */
  ghost predicate SameTree(lines: seq<string>, longer: seq<string>, n: nat, depth: nat) {
    && ReadLine(longer, n) == ReadLine(lines, n)
    && (ReadLine(lines, n).Ok? ==> EndsOutside(lines, ReadLine(lines, n).value, n, Fresh(depth), Outside(depth)))
  }

  ghost predicate SameArgs(lines: seq<string>, longer: seq<string>, n: nat, depth: nat, name: FunctionName,
                           args: seq<Node>)
  {
    && ReadArgs(longer, n, name, args) == ReadArgs(lines, n, name, args)
    && (ReadArgs(lines, n, name, args).Ok? ==>
          EndsOutside(lines, ReadArgs(lines, n, name, args).value, n, Inside(depth + 1), Outside(depth)))
  }

  ghost predicate EndsOutside(lines: seq<string>, p: Parsed, n: nat, from: Scan, to: Scan) {
    p.node.Some? && p.next <= |lines| && ScanFrom(lines, n, from) == ScanFrom(lines, p.next, to)
  }

  /** One step of the scan. */
  lemma ScanStep(lines: seq<string>, n: nat, st: Scan)
    requires n < |lines|
    ensures ScanFrom(lines, n, st) == ScanFrom(lines, n + 1, ScanLine(st, lines[n]))
  {
  }

  lemma {:induction false} SameTreeRead(lines: seq<string>, longer: seq<string>, n: nat, depth: nat)
    requires Stops(lines, longer) && n <= |lines| && !ScanFrom(lines, n, Fresh(depth)).Fresh?
    ensures SameTree(lines, longer, n, depth)
    decreases |lines| - n, 1
  {
    hide ReadArgs, ScanFrom, NameOf;
    AtEnd(lines, Fresh(depth));
    if n < |lines| {
      ScanStep(lines, n, Fresh(depth));
      var line := lines[n];
      if IsComment(line) {
        SameTreeRead(lines, longer, n + 1, depth);
      } else if OpensFunction(line) && line != "}" && NameOf(line).Some? {
        SameTreeRead(lines, longer, n + 1, depth + 1);
        if ReadLine(lines, n + 1).Ok? {
          var first := ReadLine(lines, n + 1).value;
          SameArgsRead(lines, longer, first.next, depth, NameOf(line).value, Attach([], first.node));
        }
      }
    }
  }

  lemma {:induction false} BrokenStays(lines: seq<string>, n: nat, st: Scan)
    requires st.Broken? || (st.Complete? && n < |lines|)
    ensures ScanFrom(lines, n, st).Broken?
    decreases |lines| - n
  {
    if n < |lines| {
      BrokenStays(lines, n + 1, Broken);
    }
  }

  lemma AtEnd(lines: seq<string>, st: Scan)
    ensures ScanFrom(lines, |lines|, st) == st
  {
  }

  lemma {:induction false} SameArgsRead(lines: seq<string>, longer: seq<string>, n: nat, depth: nat,
                                        name: FunctionName, args: seq<Node>)
    requires Stops(lines, longer) && n <= |lines| && !ScanFrom(lines, n, Inside(depth + 1)).Fresh?
    ensures SameArgs(lines, longer, n, depth, name, args)
    decreases |lines| - n, 2
  {
    hide ReadLine, ScanFrom, NameOf, OpensFunction;
    if n < |lines| {
      ScanStep(lines, n, Inside(depth + 1));
      if IsComment(lines[n]) {
        SameArgsRead(lines, longer, n + 1, depth, name, args);
      } else if lines[n] != "}" {
        ScanStep(lines, n, Fresh(depth + 1));
        SameTreeRead(lines, longer, n, depth + 1);
        if ReadLine(lines, n).Ok? {
          var arg := ReadLine(lines, n).value;
          SameArgsRead(lines, longer, arg.next, depth, name, Attach(args, arg.node));
        }
      }
    }
  }

  // ---------- scripts that a blank line does not end ----------

  /** The file that goes on, behind a blank line, with k ends of functions. */
  function Closed(code: seq<string>, k: nat): seq<string> {
    code + [""] + seq(k, _ => "}")
  }

  lemma ClosedLines(code: seq<string>, k: nat, name: FunctionName, args: seq<Node>)
    requires NoBlank(code)
    ensures Stops(code, Closed(code, k)) && ReadLine(Closed(code, k), |code|) == Ok(Parsed(None, |code| + 1))
    ensures forall i :: |code| < i <= |code| + k ==>
              ReadArgs(Closed(code, k), i, name, args) == Ok(Parsed(Some(Function(name, args)), i + 1))
    ensures forall i :: i > |code| ==> ReadArgs(code, i, name, args).Err?
  {
  }

  /** The scan of the code ends right behind an opening line at depth `open`. Either the tree at line n is complete
      before, or the code breaks off in it, and k ends of functions behind the blank line complete it. */
  ghost predicate OpenTree(code: seq<string>, k: nat, n: nat, depth: nat, open: nat) {
    var short, long := ReadLine(code, n), ReadLine(Closed(code, k), n);
    if short.Ok? && short.value.node.Some? then
      long == short && EndsOutside(code, short.value, n, Fresh(depth), Outside(depth))
    else if open == depth then short == long == Ok(Parsed(None, |code| + 1))
    else open > depth && short.Err? && Completed(long, |code| + 1 + (open - depth))
  }

  ghost predicate OpenArgs(code: seq<string>, k: nat, n: nat, depth: nat, open: nat, name: FunctionName,
                           args: seq<Node>)
  {
    var short, long := ReadArgs(code, n, name, args), ReadArgs(Closed(code, k), n, name, args);
    if short.Ok? then long == short && EndsOutside(code, short.value, n, Inside(depth + 1), Outside(depth))
    else open > depth && Completed(long, |code| + 1 + (open - depth))
  }

  ghost predicate Completed(r: Result<Parsed>, next: nat) {
    r.Ok? && r.value.node.Some? && r.value.next == next
  }

  lemma {:induction false} OpenTreeRead(code: seq<string>, k: nat, n: nat, depth: nat, open: nat)
    requires NoBlank(code) && n <= |code| && open <= k && ScanFrom(code, n, Fresh(depth)) == Fresh(open)
    ensures OpenTree(code, k, n, depth, open)
    decreases |code| - n, 1
  {
    hide ReadArgs, ScanFrom, NameOf, Closed;
    AtEnd(code, Fresh(depth));
    ClosedLines(code, k, Sha256, []);
    if n < |code| {
      ScanStep(code, n, Fresh(depth));
      var line := code[n];
      if IsComment(line) {
        OpenTreeRead(code, k, n + 1, depth, open);
      } else if OpensFunction(line) && line != "}" && NameOf(line).Some? {
        var name := NameOf(line).value;
        OpenTreeRead(code, k, n + 1, depth + 1, open);
        HeaderRead(code, n, name);
        HeaderRead(Closed(code, k), n, name);
        var first := ReadLine(Closed(code, k), n + 1).value;
        ClosedLines(code, k, name, Attach([], first.node));
        if ReadLine(code, n + 1).Ok? && first.node.Some? {
          OpenArgsRead(code, k, first.next, depth, open, name, Attach([], first.node));
        }
      } else if line == "}" || OpensFunction(line) {
        BrokenStays(code, n + 1, Broken);
      }
    }
  }

  lemma {:induction false} OpenArgsRead(code: seq<string>, k: nat, n: nat, depth: nat, open: nat, name: FunctionName,
                                        args: seq<Node>)
    requires NoBlank(code) && n <= |code| && open <= k && ScanFrom(code, n, Inside(depth + 1)) == Fresh(open)
    ensures OpenArgs(code, k, n, depth, open, name, args)
    decreases |code| - n, 2
  {
    hide ReadLine, ScanFrom, NameOf, OpensFunction, Closed;
    AtEnd(code, Inside(depth + 1));
    ClosedLines(code, k, name, args);
    if n < |code| {
      ScanStep(code, n, Inside(depth + 1));
      if IsComment(code[n]) {
        OpenArgsRead(code, k, n + 1, depth, open, name, args);
      } else if code[n] != "}" {
        ScanStep(code, n, Fresh(depth + 1));
        OpenTreeRead(code, k, n, depth + 1, open);
        TokenIsSomething(code, n);
        if ReadLine(code, n).Ok? {
          var arg := ReadLine(code, n).value;
          OpenArgsRead(code, k, arg.next, depth, open, name, Attach(args, arg.node));
        } else {
          var longer := Closed(code, k);
          var arg := ReadLine(longer, n).value;
          var more := Attach(args, arg.node);
          ClosedLines(code, k, name, more);
          assert LineAt(longer, n) == code[n];
          assert ReadArgs(longer, n, name, args) == ReadArgs(longer, arg.next, name, more);
        }
      }
    }
  }

  lemma HeaderRead(lines: seq<string>, n: nat, name: FunctionName)
    requires n < |lines| && !IsComment(lines[n]) && lines[n] != "}" && OpensFunction(lines[n])
    requires NameOf(lines[n]) == Some(name)
    ensures ReadLine(lines, n) ==
            var first :- ReadLine(lines, n + 1);
            ReadArgs(lines, first.next, name, Attach([], first.node))
  {
    hide ReadArgs, NameOf;
  }

  /** A line that is neither blank nor a comment starts a tree or an error. */
  lemma TokenIsSomething(lines: seq<string>, n: nat)
    requires n < |lines| && lines[n] != "" && !IsComment(lines[n])
    ensures ReadLine(lines, n).Ok? ==> ReadLine(lines, n).value.node.Some?
  {
    hide ReadArgs;
    if ReadLine(lines, n).Ok? && OpensFunction(lines[n]) {
      var first := ReadLine(lines, n + 1).value;
      ReadArgsNode(lines, first.next, NameOf(lines[n]).value, Attach([], first.node));
    }
  }

  /** After a file of comments only, the blank line ends nothing: more lines are too much code. */
  lemma BlankAfterComments(code: seq<string>, rest: seq<string>)
    requires NoBlank(code) && Strip(code) == []
    ensures Compile(code) == Ok(None)
    ensures Compile(code + [""] + rest) == (if rest == [] || rest[0] == "" then Ok(None) else Err(BadSyntax))
  {
    hide Strip;
    var longer := code + [""] + rest;
    CompilesToNothing(code);
    CommentsThenBlank(code, longer, 0);
  }

  lemma {:induction false} CommentsThenBlank(code: seq<string>, longer: seq<string>, n: nat)
    requires Stops(code, longer) && n <= |code| && Strip(code[n..]) == []
    ensures ReadLine(longer, n) == Ok(Parsed(None, |code| + 1))
    decreases |code| - n
  {
    hide Strip;
    if n < |code| {
      StripStep(code, n);
      CommentsThenBlank(code, longer, n + 1);
    }
  }

  /** Does the script end at its first blank line, whatever follows it? */
  ghost predicate BlankEnds(code: seq<string>) {
    forall rest :: Compile(code + [""] + rest) == Compile(code)
  }

  lemma BlankEndsIt(code: seq<string>, rest: seq<string>)
    requires NoBlank(code) && !ScanFrom(code, 0, Fresh(0)).Fresh?
    ensures Compile(code + [""] + rest) == Compile(code)
  {
    hide ReadLine, ScanFrom;
    SameTreeRead(code, code + [""] + rest, 0, 0);
  }

  /** Ends of functions behind the blank line complete a script that breaks off behind an opening line, and are too
      much behind one that has not begun. */
  lemma BlankIsSkipped(code: seq<string>, open: nat)
    requires NoBlank(code) && ScanFrom(code, 0, Fresh(0)) == Fresh(open)
    ensures Compile(Closed(code, if open == 0 then 1 else open)) != Compile(code)
  {
    hide ReadLine, ScanFrom;
    var k := if open == 0 then 1 else open;
    OpenTreeRead(code, k, 0, 0, open);
    var short := ReadLine(code, 0);
    if short.Ok? && short.value.node.Some? {
      AtEnd(code, Complete);
      BrokenStays(code, short.value.next, if short.value.next < |code| then Complete else Broken);
    }
  }

  /** The script ends at its first blank line, whatever follows it, exactly if its code does not break off right behind
      an opening line or before its first token. */
  lemma ScriptEndsAtBlank(code: seq<string>)
    requires NoBlank(code)
    ensures BlankEnds(code) <==> !ScanFrom(code, 0, Fresh(0)).Fresh?
  {
    hide Compile, ScanFrom;
    var st := ScanFrom(code, 0, Fresh(0));
    if st.Fresh? {
      BlankIsSkipped(code, st.depth);
      var rest := seq(if st.depth == 0 then 1 else st.depth, _ => "}");
      assert Compile(code + [""] + rest) != Compile(code);
    } else {
      forall rest ensures Compile(code + [""] + rest) == Compile(code) {
        BlankEndsIt(code, rest);
      }
    }
  }

  // ---------- the language in its own letters ----------

  /** A file of a comment, an opening line, a getter and a closing line: which opening lines there are, and what they
      open. */
  lemma OpeningLines(comment: string, h: string, field: string)
    requires h != "" && h[0] != '#' && h[|h| - 1] == '{' && (field == "" || field[|field| - 1] != '{')
    ensures Compile(["#" + comment, h, ">" + field, "}"]) ==
            if h == "Sha256 {" then Ok(Some(Function(Sha256, [Getter(field)])))
            else if h == "Cut_bit {" then Ok(Some(Function(CutBit, [Getter(field)])))
            else if h == "Cut_byte {" then Ok(Some(Function(CutByte, [Getter(field)])))
            else Err(BadSyntax)
  {
    var lines := ["#" + comment, h, ">" + field, "}"];
    var getter := ">" + field;
    assert getter[1..] == field && !OpensFunction(getter);
    assert IsComment(lines[0]) && LineAt(lines, 4) == "";
    assert ReadLine(lines, 0) == ReadLine(lines, 1);
    assert ReadLine(lines, 2) == Ok(Parsed(Some(Getter(field)), 3));
    hide ReadLine;
    var name := NameOf(h);
    if name.Some? {
      ReadFunction(lines, 1, name.value, Getter(field), 3);
      ReadArgsEnd(lines, 3, name.value, [Getter(field)]);
    } else {
      NoFunction(lines, 1);
    }
  }

  lemma NoFunction(lines: seq<string>, n: nat)
    requires n < |lines| && OpensFunction(lines[n]) && !IsComment(lines[n]) && NameOf(lines[n]).None?
    ensures ReadLine(lines, n) == Err(BadSyntax)
  {
  }
}
