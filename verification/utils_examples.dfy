/** Concrete inputs and outputs of the utility helpers, including the
    hostname discrepancy. */
module UtilsExamples {
  import opened Wrappers
  import opened Text
  import opened Utils

  lemma DurationSeconds()
    ensures HumanReadableDuration(45) == Ok("45s")
    ensures HumanReadableDuration(0) == Ok("0s")
    ensures HumanReadableDuration(-10).Err?
  {
    assert NatToString(45) == "45" by { assert NatToString(4) == "4"; }
    assert NatToString(0) == "0";
    assert Token(45, 's') == "45s" && Token(0, 's') == "0s";
    assert Decompose(45) == Duration(0, 0, 0, 45);
    assert DurationTokens(Duration(0, 0, 0, 45)) == ["45s"];
    assert DurationTokens(Duration(0, 0, 0, 0)) == ["0s"];
  }

  lemma DurationMinutes()
    ensures HumanReadableDuration(125) == Ok("2m 5s")
  {
    assert NatToString(2) == "2" && NatToString(5) == "5";
    assert Token(2, 'm') == "2m" && Token(5, 's') == "5s";
    assert Decompose(125) == Duration(0, 0, 2, 5);
    assert DurationTokens(Duration(0, 0, 2, 5)) == ["2m", "5s"];
    assert Join(["2m", "5s"], " ") == "2m 5s";
  }

  lemma DurationHours()
    ensures HumanReadableDuration(3665) == Ok("1h 1m 5s")
  {
    assert NatToString(1) == "1" && NatToString(5) == "5";
    assert Token(1, 'h') == "1h" && Token(1, 'm') == "1m" && Token(5, 's') == "5s";
    assert Decompose(3665) == Duration(0, 1, 1, 5);
    assert DurationTokens(Duration(0, 1, 1, 5)) == ["1h", "1m", "5s"];
    assert Join(["1h", "1m", "5s"], " ") == "1h 1m 5s" by {
      assert Join(["1m", "5s"], " ") == "1m 5s";
      assert ["1h", "1m", "5s"][1..] == ["1m", "5s"];
    }
  }

  lemma DurationDays()
    ensures HumanReadableDuration(90000) == Ok("1d 1h")
  {
    assert NatToString(1) == "1";
    assert Token(1, 'h') == "1h" && Token(1, 'd') == "1d";
    assert Decompose(90000) == Duration(1, 1, 0, 0);
    assert DurationTokens(Duration(1, 1, 0, 0)) == ["1d", "1h"];
    assert Join(["1d", "1h"], " ") == "1d 1h";
  }

  /** Replacement distributes over a string cut into seven pieces. */
  lemma ReplaceInvalid7(a: string, b: string, c: string, d: string, e: string, f: string, g: string, rep: string)
    ensures ReplaceInvalid(a + b + c + d + e + f + g, rep) ==
      ReplaceInvalid(a, rep) + ReplaceInvalid(b, rep) + ReplaceInvalid(c, rep) + ReplaceInvalid(d, rep)
      + ReplaceInvalid(e, rep) + ReplaceInvalid(f, rep) + ReplaceInvalid(g, rep)
  {
    ReplaceInvalidAppend(a + b + c + d + e + f, g, rep);
    ReplaceInvalidAppend(a + b + c + d + e, f, rep);
    ReplaceInvalidAppend(a + b + c + d, e, rep);
    ReplaceInvalidAppend(a + b + c, d, rep);
    ReplaceInvalidAppend(a + b, c, rep);
    ReplaceInvalidAppend(a, b, rep);
  }

  lemma CleanPieces()
    ensures NoInvalidFileChar("my") && NoInvalidFileChar("file") && NoInvalidFileChar(".txt")
    ensures NoInvalidFileChar("name") && NoInvalidFileChar("file.txt")
  {
  }

  lemma InvalidSingles()
    ensures ReplaceInvalid(":", "_") == "_" && ReplaceInvalid("/", "_") == "_"
    ensures ReplaceInvalid("?", "_") == "_" && ReplaceInvalid(":", "-") == "-"
  {
  }

  lemma ReplaceExample1(s: string, t: string)
    requires s == "my" + ":" + "file" + "/" + "name" + "?" + ".txt"
    requires t == "my" + "_" + "file" + "_" + "name" + "_" + ".txt"
    ensures ReplaceInvalid(s, "_") == t
  {
    CleanPieces();
    InvalidSingles();
    ReplaceInvalid7("my", ":", "file", "/", "name", "?", ".txt", "_");
  }

  lemma ReplaceExample2(s: string, t: string)
    requires s == "my" + ":" + "file.txt" && t == "my" + "-" + "file.txt"
    ensures ReplaceInvalid(s, "-") == t
  {
    CleanPieces();
    InvalidSingles();
    ReplaceInvalidAppend("my" + ":", "file.txt", "-");
    ReplaceInvalidAppend("my", ":", "-");
  }

  /** Sanitising a name whose replaced form is already clean at both ends. */
  lemma SanitizeClean(name: string, rep: string, out: string)
    requires name != [] && ReplaceInvalid(name, rep) == out
    requires out != [] && !IsStripChar(out[0]) && !IsStripChar(out[|out| - 1])
    ensures SanitizeFilename(name, rep) == Ok(out)
  {
    StripClean(out);
  }

  lemma CleanEnds()
    ensures !IsStripChar("my_file_name_.txt"[0]) && !IsStripChar("my_file_name_.txt"[16])
    ensures !IsStripChar("my-file.txt"[0]) && !IsStripChar("my-file.txt"[10])
  {
  }

  lemma SanitizeExample1(name: string, out: string)
    requires name == "my:file/name?.txt" && out == "my_file_name_.txt"
    ensures SanitizeFilename(name, "_") == Ok(out)
  {
    CleanEnds();
    ReplaceExample1(name, out);
    SanitizeClean(name, "_", out);
  }

  lemma SanitizeExample2()
    ensures SanitizeFilename("my:file.txt", "-") == Ok("my-file.txt")
  {
    CleanEnds();
    ReplaceExample2("my:file.txt", "my-file.txt");
    SanitizeClean("my:file.txt", "-", "my-file.txt");
  }

  lemma SanitizeExample3(name: string)
    requires name == "valid_filename.txt"
    ensures SanitizeFilename(name, "_") == Ok(name)
    ensures SanitizeFilename("", "_").Err?
  {
    assert NoInvalidFileChar(name);
    assert !IsStripChar(name[0]) && !IsStripChar(name[|name| - 1]);
    SanitizeClean(name, "_", name);
  }

  lemma StripExample(s: string, t: string)
    requires s == " " + " " + t + " " + " "
    requires t != [] && !IsStripChar(t[0]) && !IsStripChar(t[|t| - 1])
    ensures Strip(s) == t
  {
    var l1 := t + " ";
    var l := l1 + " ";
    assert s == [' '] + ([' '] + l);
    StripLeftCons(' ', [' '] + l);
    StripLeftCons(' ', l);
    assert StripLeft(l) == l;
    StripRightSnoc(l1, ' ');
    StripRightSnoc(t, ' ');
    assert StripRight(t) == t;
  }

  lemma SanitizeExample4(name: string, out: string)
    requires name == "  filename.txt  " && out == "filename.txt"
    ensures SanitizeFilename(name, "_") == Ok(out)
  {
    assert NoInvalidFileChar(name);
    assert name == " " + " " + out + " " + " ";
    assert !IsStripChar(out[0]) && !IsStripChar(out[|out| - 1]);
    StripExample(name, out);
  }

  /** The pattern's trailing `$` lets a hostname with a final newline through. */
  lemma HostnameTrailingNewline()
    ensures IsValidHostnameAsWritten("server01\n")
    ensures !IsValidHostname("server01\n")
  {
    var h := "server01\n";
    assert h[..|h| - 1] == "server01";
    assert ValidLabel("server01");
    SingleLabelHostname("server01");
    InvalidSingleLabel(h);
  }

  /** A dot-free string that is not a valid label is not a valid hostname. */
  lemma InvalidSingleLabel(h: string)
    requires '.' !in h && !ValidLabel(h)
    ensures !IsValidHostname(h)
  {
    SplitNoSep(h, '.');
    assert h in Split(h, '.');
  }

  /** Two adjacent dots leave an empty label. */
  lemma DoubleDot(a: string, b: string, h: string)
    requires h == a + "." + "." + b && '.' !in a
    ensures !IsValidHostname(h)
  {
    assert h == a + ['.'] + ("" + ['.'] + b);
    SplitAfterSep(a, "" + ['.'] + b, '.');
    SplitAfterSep("", b, '.');
    assert "" in Split(h, '.');
  }

  lemma HostnameExamplesValid()
    ensures IsValidHostname("server01")
    ensures IsValidHostname("my-server")
    ensures IsValidHostname("my_server")
  {
    assert ValidLabel("server01") && ValidLabel("my-server") && ValidLabel("my_server");
    SingleLabelHostname("server01");
    SingleLabelHostname("my-server");
    SingleLabelHostname("my_server");
  }

  lemma HostnameExampleDotted()
    ensures IsValidHostname("server_01.local")
  {
    assert ValidLabel("server_01") && ValidLabel("local");
    assert JoinedLabels("server_01.local", ["server_01", "local"]);
    JoinedLabelsValid("server_01.local", ["server_01", "local"]);
  }

  lemma HostnameExamplesInvalid()
    ensures !IsValidHostname("")
    ensures !IsValidHostname("server..local")
  {
    DoubleDot("server", "local", "server..local");
  }

  lemma HostnameExampleSpecialChar(h: string)
    requires h == "server@local"
    ensures !IsValidHostname(h)
  {
    assert '.' !in h;
    assert !IsLabelChar(h[6]);
    InvalidSingleLabel(h);
  }

  /** A name made only of dots and spaces sanitises to the fallback name. */
  lemma SanitizeOnlyDots(dots: string, spaced: string)
    requires dots == "..." && spaced == " . "
    ensures SanitizeFilename(dots, "_") == Ok("unnamed")
    ensures SanitizeFilename(spaced, "_") == Ok("unnamed")
  {
    assert NoInvalidFileChar(dots) && NoInvalidFileChar(spaced);
    assert AllStrip(dots);
    assert AllStrip(spaced);
    StripAllStripChars(dots);
    StripAllStripChars(spaced);
  }

  /** The ends of the VMID range. */
  lemma VmidBoundaries()
    ensures !IsValidVmid(99) && IsValidVmid(100)
    ensures IsValidVmid(999999) && !IsValidVmid(1000000)
    ensures !IsValidVmid(0) && !IsValidVmid(-1)
  {
  }
}
