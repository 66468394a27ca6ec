/**
  The class autoloader: the file a class of the application's namespace is
  loaded from. The existence check and the `require` are not modelled; the
  directory the autoloader file sits in is a parameter.
 */
module Autoload {
  import opened Wrappers
  import opened Strings
  import Model

  /** The namespace prefix the autoloader serves, with its trailing separator. */
  const Prefix: string := Model.Namespace + "\\"

  predicate HasPrefix(s: string, p: string)
  {
    |p| <= |s| && s[..|p|] == p
  }

  predicate HasSuffix(s: string, p: string)
  {
    |p| <= |s| && s[|s| - |p|..] == p
  }

  /** The base directory of the namespace. */
  function BaseDir(dir: string): string
  {
    dir + "/src/"
  }

  /**
    The file the autoloader tries for `className`: none outside the
    namespace (the check is case-sensitive); otherwise the base directory,
    `class.`, the rest of the name lower-cased with namespace separators
    turned into `/`, and `.php`.
   */
  function ClassFile(dir: string, className: string): (r: Option<string>)
    ensures r.None? <==> !HasPrefix(className, Prefix)
    ensures r.Some? ==> HasPrefix(r.value, BaseDir(dir) + "class.") && HasSuffix(r.value, ".php")
  {
    if HasPrefix(className, Prefix) then
      var relative := "class." + Lower(className[|Prefix|..]);
      var file := BaseDir(dir) + ReplaceChar(relative, '\\', '/') + ".php";
      assert ReplaceChar(relative, '\\', '/')[..6] == "class.";
      assert file[..|BaseDir(dir)|] == BaseDir(dir);
      Some(file)
    else None
  }

  /** The part of the path after the base directory and `class.`, before `.php`. */
  function RelativeName(dir: string, file: string): string
    requires HasPrefix(file, BaseDir(dir) + "class.") && HasSuffix(file, ".php")
    requires |BaseDir(dir) + "class."| + 4 <= |file|
  {
    file[|BaseDir(dir) + "class."|..|file| - 4]
  }

  /** The relative part of a computed path is the lower-cased class name with `/` for `\`. */
  lemma ClassFileShape(dir: string, className: string)
    requires HasPrefix(className, Prefix)
    ensures var file := ClassFile(dir, className).value;
      && |file| == |BaseDir(dir) + "class."| + |className| - |Prefix| + 4
      && RelativeName(dir, file) == ReplaceChar(Lower(className[|Prefix|..]), '\\', '/')
  {
    var rest := className[|Prefix|..];
    var relative := "class." + Lower(rest);
    var replaced := ReplaceChar(relative, '\\', '/');
    assert replaced == "class." + ReplaceChar(Lower(rest), '\\', '/') by {
      ReplaceCharAppend("class.", Lower(rest), '\\', '/');
    }
  }

  lemma {:induction false} ReplaceCharAppend(a: string, b: string, from: char, to: char)
    ensures ReplaceChar(a + b, from, to) == ReplaceChar(a, from, to) + ReplaceChar(b, from, to)
  {
    var l := ReplaceChar(a + b, from, to);
    var rr := ReplaceChar(a, from, to) + ReplaceChar(b, from, to);
    assert |l| == |rr|;
    forall i | 0 <= i < |l| ensures l[i] == rr[i] {
      if i < |a| {
        assert (a + b)[i] == a[i];
      } else {
        assert (a + b)[i] == b[i - |a|];
      }
    }
  }

  /** The relative part of the path never holds an upper-case letter or a backslash. */
  lemma RelativeNameClean(dir: string, className: string)
    requires HasPrefix(className, Prefix)
    ensures var rel := RelativeName(dir, ClassFile(dir, className).value);
      forall i :: 0 <= i < |rel| ==> !IsUpper(rel[i]) && rel[i] != '\\'
  {
    ClassFileShape(dir, className);
  }

  /**
    The class a file under the base directory holds, read back from its
    name: `/` becomes `\` again and the namespace is put in front.
   */
  function ClassOfFile(dir: string, file: string): (r: Option<string>)
    ensures r.Some? ==> HasPrefix(r.value, Prefix)
  {
    if HasPrefix(file, BaseDir(dir) + "class.") && HasSuffix(file, ".php")
      && |BaseDir(dir) + "class."| + 4 <= |file|
    then
      var name := Prefix + ReplaceChar(RelativeName(dir, file), '/', '\\');
      assert name[..|Prefix|] == Prefix;
      Some(name)
    else None
  }

  /**
    A class whose name after the namespace is lower-case and has no `/` is
    found again from its path.
   */
  lemma ClassFileRoundTrip(dir: string, className: string)
    requires HasPrefix(className, Prefix)
    requires forall i :: |Prefix| <= i < |className| ==> !IsUpper(className[i]) && className[i] != '/'
    ensures ClassOfFile(dir, ClassFile(dir, className).value) == Some(className)
  {
    var rest := className[|Prefix|..];
    ClassFileShape(dir, className);
    LowerOfNoUpper(rest);
    var back := ReplaceChar(ReplaceChar(rest, '\\', '/'), '/', '\\');
    assert back == rest;
    assert Prefix + rest == className;
  }

  /** The namespace check is case-sensitive; the rest of the name is not. */
  lemma ClassFileIgnoresCaseOfRest(dir: string, a: string, b: string)
    requires Lower(a) == Lower(b)
    ensures ClassFile(dir, Prefix + a) == ClassFile(dir, Prefix + b)
  {
    assert (Prefix + a)[..|Prefix|] == Prefix && (Prefix + a)[|Prefix|..] == a;
    assert (Prefix + b)[..|Prefix|] == Prefix && (Prefix + b)[|Prefix|..] == b;
  }

  lemma ReplaceCharAbsent(s: string, from: char, to: char)
    requires forall i :: 0 <= i < |s| ==> s[i] != from
    ensures ReplaceChar(s, from, to) == s
  {
  }

  /** The path of a class of the namespace, spelled out. */
  lemma ClassFileOfPrefixed(dir: string, rest: string)
    ensures ClassFile(dir, Prefix + rest).Some?
    ensures ClassFile(dir, Prefix + rest).value == BaseDir(dir) + ReplaceChar("class." + Lower(rest), '\\', '/') + ".php"
  {
    assert (Prefix + rest)[..|Prefix|] == Prefix && (Prefix + rest)[|Prefix|..] == rest;
  }

  /** The application's own classes load from their lower-case files. */
  lemma ClassFileOfModel(dir: string, className: string, rest: string)
    requires rest == "Model" && className == Prefix + rest
    ensures ClassFile(dir, className) == Some(dir + "/src/class.model.php")
  {
    ClassFileOfPrefixed(dir, rest);
    var relative := ModelRelative(rest);
    ModelPath(dir, relative);
  }

  lemma ModelRelative(rest: string) returns (relative: string)
    requires rest == "Model"
    ensures relative == "class." + Lower(rest) && relative == "class.model"
    ensures ReplaceChar(relative, '\\', '/') == relative
  {
    relative := "class." + Lower(rest);
    assert Lower(rest) == "model";
    ReplaceCharAbsent(relative, '\\', '/');
  }

  lemma ModelPath(dir: string, relative: string)
    requires relative == "class.model"
    ensures BaseDir(dir) + relative + ".php" == dir + "/src/class.model.php"
  {
  }
}
