/** The transitive partial-dependency walk: `_parse`,
    `_recursiveNodeSearch` and `getDependencies` as specification
    functions, with the properties the plugin relies on. The walk visits the
    statements of a list from left to right. */
module Resolver {
  import opened Wrappers
  import opened Paths
  import opened Handlebars
  import opened Errors

  /** The files the plugin can read: path to source text. */
  type FileSystem = map<string, string>

  /** `_parse`: the parser's statements, or a rejection that names the file
      whose source did not parse. */
  function ParseTemplate(parse: Parser, source: string, file: string): (r: Result<seq<Statement>, Error>)
    ensures r.Success? <==> parse(source).Success?
    ensures r.Success? ==> r.value == parse(source).value
    ensures r.Failure? ==> r.error.ParseFailed? && r.error.file == file && r.error.message == parse(source).error
  {
    match parse(source)
    case Success(ast) => Success(ast)
    case Failure(message) => Failure(ParseFailed(file, message))
  }

  /** What one walk shares across its recursive calls: the `results` set of
      partial files already read, and the partials registered with the
      Handlebars instance. */
  datatype State = State(visited: set<string>, partials: map<string, string>)

  /** The state a walk leaves, and the rejection it ended with, if any. */
  datatype Walked = Walked(state: State, failure: Option<Error>)

  lemma ShrinkByOne(keys: set<string>, visited: set<string>, path: string)
    requires path in keys && path !in visited
    ensures |keys - (visited + {path})| < |keys - visited|
  {
    assert keys - (visited + {path}) == (keys - visited) - {path};
  }

  lemma ShrinkBySubset(keys: set<string>, small: set<string>, large: set<string>)
    requires small <= large
    ensures |keys - large| <= |keys - small|
  {
    var a, b := keys - large, keys - small;
    assert a <= b;
    assert b == a + (b - a);
    assert a * (b - a) == {};
  }

  /** `_recursiveNodeSearch(statements, results, hbs)`. A partial whose file
      is not yet in the set and can be read is added to the set before its
      source is parsed; a source that parses is registered under the
      partial's name and its own statements are walked with the same state.
      A partial already in the set, one whose file cannot be read, and every
      other statement leave the state alone. Block statements are not
      entered. The first parse failure ends the walk. */
  function Walk(fs: FileSystem, parse: Parser, statements: seq<Statement>, st: State): (w: Walked)
    decreases |fs.Keys - st.visited|, |statements|
    ensures st.visited <= w.state.visited
    ensures w.state.visited - st.visited <= fs.Keys
  {
    if statements == [] then Walked(st, None)
    else
      var rest := statements[1..];
      if !statements[0].Partial? then Walk(fs, parse, rest, st)
      else
        var name := statements[0].name;
        var path := PartialPath(name);
        if path in st.visited || path !in fs then Walk(fs, parse, rest, st)
        else
          var source := fs[path];
          var marked := st.(visited := st.visited + {path});
          var parsed := ParseTemplate(parse, source, path);
          if parsed.Failure? then Walked(marked, Some(parsed.error))
          else
            ShrinkByOne(fs.Keys, st.visited, path);
            var inner := Walk(fs, parse, parsed.value, marked.(partials := marked.partials[name := source]));
            if inner.failure.Some? then inner
            else
              ShrinkBySubset(fs.Keys, st.visited, inner.state.visited);
              Walk(fs, parse, rest, inner.state)
  }

  /** The walk was stopped by a parse failure of file `p`. */
  predicate StoppedAt(w: Walked, p: string)
  {
    w.failure.Some? && w.failure.value.ParseFailed? && w.failure.value.file == p
  }

  // ---------------------------------------------------------------------------
  // Statements a walk passes over

  /** A statement the walk does nothing for, given the files already in the
      set: anything but a partial, a partial already in the set, or a
      partial whose file cannot be read. */
  predicate Inert(fs: FileSystem, s: Statement, visited: set<string>)
  {
    s.Partial? ==> PartialPath(s.name) in visited || PartialPath(s.name) !in fs
  }

  /** Every readable partial the list names directly is in `visited`. */
  predicate Covered(fs: FileSystem, statements: seq<Statement>, visited: set<string>)
  {
    forall i :: 0 <= i < |statements| ==> Inert(fs, statements[i], visited)
  }

  /** The file `p` parses, and every readable partial it names is in `visited`. */
  predicate BodyCovered(fs: FileSystem, parse: Parser, p: string, visited: set<string>)
  {
    p in fs && parse(fs[p]).Success? && Covered(fs, parse(fs[p]).value, visited)
  }

  lemma CoveredSplit(fs: FileSystem, statements: seq<Statement>, visited: set<string>)
    requires statements != []
    ensures Covered(fs, statements, visited) <==>
            Inert(fs, statements[0], visited) && Covered(fs, statements[1..], visited)
  {
    if Inert(fs, statements[0], visited) && Covered(fs, statements[1..], visited) {
      forall i | 1 <= i < |statements| ensures Inert(fs, statements[i], visited) {
        assert statements[i] == statements[1..][i - 1];
      }
    }
  }

  /** A walk over statements that are all inert reads nothing, registers
      nothing and does not fail. */
  lemma {:induction false} WalkOfInert(fs: FileSystem, parse: Parser, statements: seq<Statement>, st: State)
    requires Covered(fs, statements, st.visited)
    ensures Walk(fs, parse, statements, st) == Walked(st, None)
    decreases |statements|
  {
    if statements != [] {
      CoveredSplit(fs, statements, st.visited);
      WalkOfInert(fs, parse, statements[1..], st);
    }
  }

  /** Walking a concatenation walks the first list, then, unless that
      failed, the second from the state the first left. */
  lemma {:induction false} WalkAppend(fs: FileSystem, parse: Parser, a: seq<Statement>, b: seq<Statement>, st: State)
    ensures var w := Walk(fs, parse, a, st);
            Walk(fs, parse, a + b, st) == if w.failure.Some? then w else Walk(fs, parse, b, w.state)
    decreases |fs.Keys - st.visited|, |a|
  {
    if a == [] {
      assert a + b == b;
    } else {
      assert (a + b)[0] == a[0];
      assert (a + b)[1..] == a[1..] + b;
      if !a[0].Partial? {
        WalkAppend(fs, parse, a[1..], b, st);
      } else {
        var name := a[0].name;
        var path := PartialPath(name);
        if path in st.visited || path !in fs {
          WalkAppend(fs, parse, a[1..], b, st);
        } else if parse(fs[path]).Success? {
          ShrinkByOne(fs.Keys, st.visited, path);
          var start := State(st.visited + {path}, st.partials[name := fs[path]]);
          var inner := Walk(fs, parse, parse(fs[path]).value, start);
          if inner.failure.None? {
            ShrinkBySubset(fs.Keys, st.visited, inner.state.visited);
            WalkAppend(fs, parse, a[1..], b, inner.state);
          }
        }
      }
    }
  }

  /** Statements that are all inert in front of a list change nothing: a
      partial already in the set is not read, registered or walked again,
      a partial without a file is skipped without failing, and no other
      statement is examined. */
  lemma WalkSkipsInert(fs: FileSystem, parse: Parser, inert: seq<Statement>, rest: seq<Statement>, st: State)
    requires Covered(fs, inert, st.visited)
    ensures Walk(fs, parse, inert + rest, st) == Walk(fs, parse, rest, st)
  {
    WalkAppend(fs, parse, inert, rest, st);
    WalkOfInert(fs, parse, inert, st);
  }

  /** Partials inside a block statement are not looked at. */
  lemma WalkIgnoresBlocks(fs: FileSystem, parse: Parser, program: seq<Statement>, inverse: seq<Statement>,
                          rest: seq<Statement>, st: State)
    ensures Walk(fs, parse, [Block(program, inverse)] + rest, st) == Walk(fs, parse, rest, st)
  {
    WalkSkipsInert(fs, parse, [Block(program, inverse)], rest, st);
  }

  // ---------------------------------------------------------------------------
  // What a walk discovers

  /** After a successful walk every readable partial named by the list, and
      by the source of every file the walk added, is in the set: the set is
      closed under "names a readable partial". */
  lemma {:induction false} WalkCovers(fs: FileSystem, parse: Parser, statements: seq<Statement>, st: State)
    ensures var w := Walk(fs, parse, statements, st);
            w.failure.None? ==>
              Covered(fs, statements, w.state.visited) &&
              forall p :: p in w.state.visited - st.visited ==> BodyCovered(fs, parse, p, w.state.visited)
    decreases |fs.Keys - st.visited|, |statements|
  {
    var w := Walk(fs, parse, statements, st);
    if statements != [] && w.failure.None? {
      var rest := statements[1..];
      CoveredSplit(fs, statements, w.state.visited);
      if !statements[0].Partial? {
        WalkCovers(fs, parse, rest, st);
      } else {
        var name := statements[0].name;
        var path := PartialPath(name);
        if path in st.visited || path !in fs {
          WalkCovers(fs, parse, rest, st);
        } else {
          var body := parse(fs[path]).value;
          ShrinkByOne(fs.Keys, st.visited, path);
          var start := State(st.visited + {path}, st.partials[name := fs[path]]);
          var inner := Walk(fs, parse, body, start);
          WalkCovers(fs, parse, body, start);
          ShrinkBySubset(fs.Keys, st.visited, inner.state.visited);
          WalkCovers(fs, parse, rest, inner.state);
          assert w == Walk(fs, parse, rest, inner.state);
          forall p | p in w.state.visited - st.visited
            ensures BodyCovered(fs, parse, p, w.state.visited)
          {
            if p in inner.state.visited - st.visited {
              assert BodyCovered(fs, parse, p, inner.state.visited);
            }
          }
        }
      }
    }
  }

  /** Walking the same statements again from the state a successful walk
      left does nothing: every partial they reach is already in the set. */
  lemma WalkAgain(fs: FileSystem, parse: Parser, statements: seq<Statement>, st: State)
    requires Walk(fs, parse, statements, st).failure.None?
    ensures var w := Walk(fs, parse, statements, st);
            Walk(fs, parse, statements, w.state) == Walked(w.state, None)
  {
    WalkCovers(fs, parse, statements, st);
    WalkOfInert(fs, parse, statements, Walk(fs, parse, statements, st).state);
  }

  /** The list names partial `p` directly. */
  predicate Mentions(statements: seq<Statement>, p: string)
  {
    exists i :: 0 <= i < |statements| && statements[i].Partial? && PartialPath(statements[i].name) == p
  }

  /** The file `q` parses and names partial `p` directly. */
  predicate BodyMentions(fs: FileSystem, parse: Parser, q: string, p: string)
  {
    q in fs && parse(fs[q]).Success? && Mentions(parse(fs[q]).value, p)
  }

  /** Every file a walk adds is named by the list itself or by another file
      the walk added. */
  lemma {:induction false} WalkAddsOnlyMentioned(fs: FileSystem, parse: Parser, statements: seq<Statement>, st: State)
    ensures var w := Walk(fs, parse, statements, st);
            forall p :: p in w.state.visited - st.visited ==>
              Mentions(statements, p) ||
              exists q :: q in w.state.visited - st.visited && q != p && BodyMentions(fs, parse, q, p)
    decreases |fs.Keys - st.visited|, |statements|
  {
    var w := Walk(fs, parse, statements, st);
    if statements != [] {
      var rest := statements[1..];
      forall p | Mentions(rest, p) ensures Mentions(statements, p) {
        var i :| 0 <= i < |rest| && rest[i].Partial? && PartialPath(rest[i].name) == p;
        assert statements[i + 1] == rest[i];
      }
      if !statements[0].Partial? {
        WalkAddsOnlyMentioned(fs, parse, rest, st);
      } else {
        var name := statements[0].name;
        var path := PartialPath(name);
        if path in st.visited || path !in fs {
          WalkAddsOnlyMentioned(fs, parse, rest, st);
        } else {
          assert Mentions(statements, path) by { assert statements[0].Partial?; }
          if parse(fs[path]).Success? {
            var body := parse(fs[path]).value;
            ShrinkByOne(fs.Keys, st.visited, path);
            var start := State(st.visited + {path}, st.partials[name := fs[path]]);
            var inner := Walk(fs, parse, body, start);
            WalkAddsOnlyMentioned(fs, parse, body, start);
            var added := w.state.visited - st.visited;
            if inner.failure.None? {
              ShrinkBySubset(fs.Keys, st.visited, inner.state.visited);
              WalkAddsOnlyMentioned(fs, parse, rest, inner.state);
            }
            forall p | p in added
              ensures Mentions(statements, p) || exists q :: q in added && q != p && BodyMentions(fs, parse, q, p)
            {
              if p == path {
              } else if p in inner.state.visited - start.visited {
                if Mentions(body, p) {
                  assert BodyMentions(fs, parse, path, p);
                } else {
                  var q :| q in inner.state.visited - start.visited && q != p && BodyMentions(fs, parse, q, p);
                  assert q in added;
                }
              } else {
                assert inner.failure.None?;
                if !Mentions(rest, p) {
                  var q :| q in w.state.visited - inner.state.visited && q != p && BodyMentions(fs, parse, q, p);
                  assert q in added;
                }
              }
            }
          }
        }
      }
    }
  }

  /** Every readable partial named by a file of `r` is in `r`. */
  predicate ClosedUnderNaming(fs: FileSystem, parse: Parser, r: set<string>)
  {
    forall q, p :: q in r && p in fs && BodyMentions(fs, parse, q, p) ==> p in r
  }

  /** Every file a walk adds lies in each set that holds the readable partials
      the list names and is closed under naming: a walk adds only files
      reachable from the list. */
  lemma {:induction false} WalkAddsOnlyReachable(fs: FileSystem, parse: Parser, statements: seq<Statement>, st: State,
                                                 r: set<string>)
    requires forall p :: Mentions(statements, p) && p in fs ==> p in r
    requires ClosedUnderNaming(fs, parse, r)
    ensures Walk(fs, parse, statements, st).state.visited - st.visited <= r
    decreases |fs.Keys - st.visited|, |statements|
  {
    if statements != [] {
      var rest := statements[1..];
      forall p | Mentions(rest, p) ensures Mentions(statements, p) {
        var i :| 0 <= i < |rest| && rest[i].Partial? && PartialPath(rest[i].name) == p;
        assert statements[i + 1] == rest[i];
      }
      if !statements[0].Partial? {
        WalkAddsOnlyReachable(fs, parse, rest, st, r);
      } else {
        var name := statements[0].name;
        var path := PartialPath(name);
        if path in st.visited || path !in fs {
          WalkAddsOnlyReachable(fs, parse, rest, st, r);
        } else {
          assert Mentions(statements, path) by { assert statements[0].Partial?; }
          if parse(fs[path]).Success? {
            var body := parse(fs[path]).value;
            ShrinkByOne(fs.Keys, st.visited, path);
            var start := State(st.visited + {path}, st.partials[name := fs[path]]);
            var inner := Walk(fs, parse, body, start);
            forall p | Mentions(body, p) && p in fs ensures p in r {
              assert BodyMentions(fs, parse, path, p);
            }
            WalkAddsOnlyReachable(fs, parse, body, start, r);
            if inner.failure.None? {
              ShrinkBySubset(fs.Keys, st.visited, inner.state.visited);
              WalkAddsOnlyReachable(fs, parse, rest, inner.state, r);
            }
          }
        }
      }
    }
  }

  /** A walk that fails was stopped by a file it added itself, a readable
      partial whose source the parser rejected with that message. */
  lemma {:induction false} WalkFailure(fs: FileSystem, parse: Parser, statements: seq<Statement>, st: State)
    ensures var w := Walk(fs, parse, statements, st);
            w.failure.Some? ==>
              var e := w.failure.value;
              e.ParseFailed? && e.file in w.state.visited - st.visited && IsPartialPath(e.file) &&
              e.file in fs && parse(fs[e.file]) == Failure(e.message)
    decreases |fs.Keys - st.visited|, |statements|
  {
    var w := Walk(fs, parse, statements, st);
    if statements != [] && w.failure.Some? {
      var rest := statements[1..];
      if !statements[0].Partial? {
        WalkFailure(fs, parse, rest, st);
      } else {
        var name := statements[0].name;
        var path := PartialPath(name);
        PartialPathRoundTrip(name);
        if path in st.visited || path !in fs {
          WalkFailure(fs, parse, rest, st);
        } else if parse(fs[path]).Success? {
          var body := parse(fs[path]).value;
          ShrinkByOne(fs.Keys, st.visited, path);
          var start := State(st.visited + {path}, st.partials[name := fs[path]]);
          var inner := Walk(fs, parse, body, start);
          WalkFailure(fs, parse, body, start);
          if inner.failure.None? {
            ShrinkBySubset(fs.Keys, st.visited, inner.state.visited);
            WalkFailure(fs, parse, rest, inner.state);
          }
        }
      }
    }
  }

  // ---------------------------------------------------------------------------
  // Registration of partials

  /** A walk only adds registrations, and changes none except for partials
      whose files it added. */
  lemma {:induction false} WalkKeepsRegistrations(fs: FileSystem, parse: Parser, statements: seq<Statement>, st: State)
    ensures var w := Walk(fs, parse, statements, st);
            (forall n :: n in st.partials ==> n in w.state.partials) &&
            forall n :: n in w.state.partials && PartialPath(n) !in w.state.visited - st.visited ==>
              n in st.partials && w.state.partials[n] == st.partials[n]
    decreases |fs.Keys - st.visited|, |statements|
  {
    var w := Walk(fs, parse, statements, st);
    if statements != [] {
      var rest := statements[1..];
      if !statements[0].Partial? {
        WalkKeepsRegistrations(fs, parse, rest, st);
      } else {
        var name := statements[0].name;
        var path := PartialPath(name);
        if path in st.visited || path !in fs {
          WalkKeepsRegistrations(fs, parse, rest, st);
        } else if parse(fs[path]).Success? {
          var body := parse(fs[path]).value;
          ShrinkByOne(fs.Keys, st.visited, path);
          var start := State(st.visited + {path}, st.partials[name := fs[path]]);
          var inner := Walk(fs, parse, body, start);
          WalkKeepsRegistrations(fs, parse, body, start);
          if inner.failure.None? {
            ShrinkBySubset(fs.Keys, st.visited, inner.state.visited);
            WalkKeepsRegistrations(fs, parse, rest, inner.state);
          }
          forall n | n in w.state.partials && PartialPath(n) !in w.state.visited - st.visited
            ensures n in st.partials && w.state.partials[n] == st.partials[n]
          {
            PartialPathInjective(n, name);
          }
        }
      }
    }
  }

  /** Every file a walk adds is the file of a partial; each one except the
      file whose parse failure stopped the walk parsed, and its raw source is
      registered under the partial's name. */
  lemma {:induction false} WalkRegisters(fs: FileSystem, parse: Parser, statements: seq<Statement>, st: State)
    ensures var w := Walk(fs, parse, statements, st);
            (forall p :: p in w.state.visited - st.visited ==> IsPartialPath(p)) &&
            forall n :: PartialPath(n) in w.state.visited - st.visited &&
                        !StoppedAt(w, PartialPath(n)) ==>
              parse(fs[PartialPath(n)]).Success? &&
              n in w.state.partials && w.state.partials[n] == fs[PartialPath(n)]
    decreases |fs.Keys - st.visited|, |statements|
  {
    var w := Walk(fs, parse, statements, st);
    if statements != [] {
      var rest := statements[1..];
      if !statements[0].Partial? {
        WalkRegisters(fs, parse, rest, st);
      } else {
        var name := statements[0].name;
        var path := PartialPath(name);
        PartialPathRoundTrip(name);
        if path in st.visited || path !in fs {
          WalkRegisters(fs, parse, rest, st);
        } else if parse(fs[path]).Failure? {
          forall n | PartialPath(n) in w.state.visited - st.visited ensures PartialPath(n) == path { }
        } else {
          var body := parse(fs[path]).value;
          ShrinkByOne(fs.Keys, st.visited, path);
          var start := State(st.visited + {path}, st.partials[name := fs[path]]);
          var inner := Walk(fs, parse, body, start);
          WalkRegisters(fs, parse, body, start);
          WalkKeepsRegistrations(fs, parse, body, start);
          assert name in inner.state.partials && inner.state.partials[name] == fs[path];
          if inner.failure.None? {
            ShrinkBySubset(fs.Keys, st.visited, inner.state.visited);
            WalkRegisters(fs, parse, rest, inner.state);
            WalkKeepsRegistrations(fs, parse, rest, inner.state);
            forall n | PartialPath(n) in inner.state.visited - st.visited
              ensures n in w.state.partials && w.state.partials[n] == inner.state.partials[n]
            {
            }
          }
        }
      }
    }
  }

  /** The registration of `n` differs between `before` and `after`. */
  predicate Changed(before: map<string, string>, after: map<string, string>, n: string)
  {
    n in after && (n in before ==> after[n] != before[n])
  }

  /** A walk registers or re-registers a partial only when the partial's
      file is readable and its source parsed. */
  lemma {:induction false} WalkRegistersParsed(fs: FileSystem, parse: Parser, statements: seq<Statement>, st: State)
    ensures var w := Walk(fs, parse, statements, st);
            forall n :: Changed(st.partials, w.state.partials, n) ==>
              PartialPath(n) in fs && parse(fs[PartialPath(n)]).Success?
    decreases |fs.Keys - st.visited|, |statements|
  {
    var w := Walk(fs, parse, statements, st);
    if statements != [] {
      var rest := statements[1..];
      if !statements[0].Partial? {
        WalkRegistersParsed(fs, parse, rest, st);
      } else {
        var name := statements[0].name;
        var path := PartialPath(name);
        if path in st.visited || path !in fs {
          WalkRegistersParsed(fs, parse, rest, st);
        } else if parse(fs[path]).Success? {
          var body := parse(fs[path]).value;
          ShrinkByOne(fs.Keys, st.visited, path);
          var start := State(st.visited + {path}, st.partials[name := fs[path]]);
          var inner := Walk(fs, parse, body, start);
          WalkRegistersParsed(fs, parse, body, start);
          if inner.failure.None? {
            ShrinkBySubset(fs.Keys, st.visited, inner.state.visited);
            WalkRegistersParsed(fs, parse, rest, inner.state);
          }
          forall n | Changed(st.partials, w.state.partials, n)
            ensures PartialPath(n) in fs && parse(fs[PartialPath(n)]).Success?
          {
            if n != name && !Changed(inner.state.partials, w.state.partials, n) {
              assert Changed(start.partials, inner.state.partials, n);
            }
          }
        }
      }
    }
  }

  // ---------------------------------------------------------------------------
  // getDependencies

  /** What `getDependencies(file)` yields, and the partials registered with
      the plugin's Handlebars instance afterwards. */
  datatype Resolution = Resolution(dependencies: Result<set<string>, Error>, partials: map<string, string>)

  /** `getDependencies(file)`: read and parse the entry, walk its statements
      from an empty set, then add the entry itself. */
  function Dependencies(fs: FileSystem, parse: Parser, file: string, partials: map<string, string>): (d: Resolution)
    ensures d.dependencies.Success? ==> file in d.dependencies.value && d.dependencies.value <= fs.Keys
    ensures d.dependencies.Success? ==> parse(fs[file]).Success?
  {
    if file !in fs then Resolution(Failure(ReadFailed(file)), partials)
    else
      match ParseTemplate(parse, fs[file], file)
      case Failure(e) => Resolution(Failure(e), partials)
      case Success(body) =>
        var w := Walk(fs, parse, body, State({}, partials));
        if w.failure.Some? then Resolution(Failure(w.failure.value), w.state.partials)
        else Resolution(Success(w.state.visited + {file}), w.state.partials)
  }

  /** An entry that cannot be read, or does not parse, rejects the call at
      once and registers nothing. */
  lemma DependenciesOfBrokenEntry(fs: FileSystem, parse: Parser, file: string, partials: map<string, string>)
    requires file !in fs || parse(fs[file]).Failure?
    ensures Dependencies(fs, parse, file, partials) ==
            Resolution(Failure(if file !in fs then ReadFailed(file) else ParseFailed(file, parse(fs[file]).error)),
                       partials)
  {
  }

  /** A rejection names either the unreadable entry or a file that is
      readable and whose source the parser rejected with that message. */
  lemma DependenciesFailure(fs: FileSystem, parse: Parser, file: string, partials: map<string, string>)
    requires Dependencies(fs, parse, file, partials).dependencies.Failure?
    ensures var e := Dependencies(fs, parse, file, partials).dependencies.error;
            (e == ReadFailed(file) && file !in fs) ||
            (e.ParseFailed? && e.file in fs && parse(fs[e.file]) == Failure(e.message))
  {
    if file in fs && parse(fs[file]).Success? {
      WalkFailure(fs, parse, parse(fs[file]).value, State({}, partials));
    }
  }

  /** On success the set is closed: every file in it parses, and every
      readable partial such a file names is in the set. So a reached partial
      that does not parse always makes the call reject. */
  lemma DependenciesClosed(fs: FileSystem, parse: Parser, file: string, partials: map<string, string>)
    requires Dependencies(fs, parse, file, partials).dependencies.Success?
    ensures var deps := Dependencies(fs, parse, file, partials).dependencies.value;
            forall p :: p in deps ==> BodyCovered(fs, parse, p, deps)
  {
    var body := parse(fs[file]).value;
    var w := Walk(fs, parse, body, State({}, partials));
    var deps := w.state.visited + {file};
    WalkCovers(fs, parse, body, State({}, partials));
    forall p | p in deps ensures BodyCovered(fs, parse, p, deps) {
      assert BodyCovered(fs, parse, p, w.state.visited);
    }
  }

  /** On success every file in the set other than the entry is named by
      another file in the set. */
  lemma DependenciesReachable(fs: FileSystem, parse: Parser, file: string, partials: map<string, string>)
    requires Dependencies(fs, parse, file, partials).dependencies.Success?
    ensures var deps := Dependencies(fs, parse, file, partials).dependencies.value;
            forall p :: p in deps ==> p == file || exists q :: q in deps && q != p && BodyMentions(fs, parse, q, p)
  {
    var body := parse(fs[file]).value;
    var w := Walk(fs, parse, body, State({}, partials));
    var deps := w.state.visited + {file};
    WalkAddsOnlyMentioned(fs, parse, body, State({}, partials));
    forall p | p in deps && p != file ensures exists q :: q in deps && q != p && BodyMentions(fs, parse, q, p) {
      if Mentions(body, p) {
        assert BodyMentions(fs, parse, file, p);
      } else {
        var q :| q in w.state.visited && q != p && BodyMentions(fs, parse, q, p);
        assert q in deps;
      }
    }
  }

  /** On success the set holds the entry and is closed under naming. */
  lemma DependenciesClosedUnderNaming(fs: FileSystem, parse: Parser, file: string, partials: map<string, string>)
    requires Dependencies(fs, parse, file, partials).dependencies.Success?
    ensures var deps := Dependencies(fs, parse, file, partials).dependencies.value;
            file in deps && ClosedUnderNaming(fs, parse, deps)
  {
    var deps := Dependencies(fs, parse, file, partials).dependencies.value;
    DependenciesClosed(fs, parse, file, partials);
    forall q, p | q in deps && p in fs && BodyMentions(fs, parse, q, p) ensures p in deps {
      assert BodyCovered(fs, parse, q, deps);
      var body := parse(fs[q]).value;
      var i :| 0 <= i < |body| && body[i].Partial? && PartialPath(body[i].name) == p;
      assert Inert(fs, body[i], deps);
    }
  }

  /** On success the set lies inside every set that holds the entry and is
      closed under naming; with the lemma above, it is the least such set. */
  lemma DependenciesLeast(fs: FileSystem, parse: Parser, file: string, partials: map<string, string>,
                          r: set<string>)
    requires Dependencies(fs, parse, file, partials).dependencies.Success?
    requires file in r && ClosedUnderNaming(fs, parse, r)
    ensures Dependencies(fs, parse, file, partials).dependencies.value <= r
  {
    var body := parse(fs[file]).value;
    forall p | Mentions(body, p) && p in fs ensures p in r {
      assert BodyMentions(fs, parse, file, p);
    }
    WalkAddsOnlyReachable(fs, parse, body, State({}, partials), r);
  }

  /** `chain` leads from `from` to `to`, each file in it readable, parsing,
      and naming the next. */
  predicate IsChain(fs: FileSystem, parse: Parser, chain: seq<string>, from: string, to: string)
  {
    |chain| >= 1 && chain[0] == from && chain[|chain| - 1] == to &&
    forall k :: 0 <= k < |chain| - 1 ==> BodyMentions(fs, parse, chain[k], chain[k + 1])
  }

  /** On success every file in the set is reached from the entry through a
      chain of files each naming the next. */
  lemma DependenciesReachedFromEntry(fs: FileSystem, parse: Parser, file: string, partials: map<string, string>)
    requires Dependencies(fs, parse, file, partials).dependencies.Success?
    ensures var deps := Dependencies(fs, parse, file, partials).dependencies.value;
            forall p :: p in deps ==> exists chain :: IsChain(fs, parse, chain, file, p)
  {
    var reached := set p | p in fs.Keys && exists chain :: IsChain(fs, parse, chain, file, p);
    assert IsChain(fs, parse, [file], file, file);
    forall q, p | q in reached && p in fs && BodyMentions(fs, parse, q, p) ensures p in reached {
      var c :| IsChain(fs, parse, c, file, q);
      var longer := c + [p];
      forall k | 0 <= k < |longer| - 1 ensures BodyMentions(fs, parse, longer[k], longer[k + 1]) {
        if k < |c| - 1 {
          assert longer[k] == c[k] && longer[k + 1] == c[k + 1];
        } else {
          assert longer[k] == q && longer[k + 1] == p;
        }
      }
      assert IsChain(fs, parse, longer, file, p);
    }
    DependenciesLeast(fs, parse, file, partials, reached);
  }

  /** A set that holds `from` and is closed under naming holds every readable
      file a chain from `from` reaches. */
  lemma {:induction false} ChainStaysInClosed(fs: FileSystem, parse: Parser, r: set<string>,
                                              chain: seq<string>, from: string, to: string)
    requires from in r && ClosedUnderNaming(fs, parse, r)
    requires IsChain(fs, parse, chain, from, to) && to in fs
    ensures to in r
    decreases |chain|
  {
    if |chain| > 1 {
      var n := |chain|;
      var prefix := chain[..n - 1];
      var last := chain[n - 2];
      assert BodyMentions(fs, parse, last, to);
      forall k | 0 <= k < |prefix| - 1 ensures BodyMentions(fs, parse, prefix[k], prefix[k + 1]) {
        assert prefix[k] == chain[k] && prefix[k + 1] == chain[k + 1];
      }
      assert IsChain(fs, parse, prefix, from, last);
      ChainStaysInClosed(fs, parse, r, prefix, from, last);
    }
  }

  /** On success every readable file reached from the entry by a chain of
      files each naming the next is in the set: with
      `DependenciesReachedFromEntry`, the set is exactly the readable files
      reachable from the entry. */
  lemma DependenciesIncludeReachable(fs: FileSystem, parse: Parser, file: string, partials: map<string, string>,
                                     chain: seq<string>, p: string)
    requires Dependencies(fs, parse, file, partials).dependencies.Success?
    requires IsChain(fs, parse, chain, file, p) && p in fs
    ensures p in Dependencies(fs, parse, file, partials).dependencies.value
  {
    DependenciesClosedUnderNaming(fs, parse, file, partials);
    ChainStaysInClosed(fs, parse, Dependencies(fs, parse, file, partials).dependencies.value, chain, file, p);
  }

  /** On success every partial whose file is in the set, except possibly
      the entry's own, is registered with its file's source; the partials
      registered before are kept, and unchanged unless their file is in the
      set; nothing else is registered, and nothing is registered whose
      source did not parse. */
  lemma DependenciesRegisters(fs: FileSystem, parse: Parser, file: string, partials: map<string, string>)
    requires Dependencies(fs, parse, file, partials).dependencies.Success?
    ensures var d := Dependencies(fs, parse, file, partials);
            var deps := d.dependencies.value;
            (forall n :: PartialPath(n) in deps && PartialPath(n) != file ==>
               n in d.partials && d.partials[n] == fs[PartialPath(n)]) &&
            (forall n :: n in partials ==> n in d.partials) &&
            (forall n :: n in d.partials && PartialPath(n) !in deps ==> n in partials && d.partials[n] == partials[n]) &&
            (forall n :: Changed(partials, d.partials, n) ==> PartialPath(n) in fs && parse(fs[PartialPath(n)]).Success?)
  {
    var body := parse(fs[file]).value;
    WalkRegisters(fs, parse, body, State({}, partials));
    WalkKeepsRegistrations(fs, parse, body, State({}, partials));
    WalkRegistersParsed(fs, parse, body, State({}, partials));
  }
}
