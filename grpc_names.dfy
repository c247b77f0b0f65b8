/**
 * The parts of a protobuf file descriptor that the query services read
 * (package, services, methods), the dotted gRPC names built from them, and
 * the name under which the WASM module must export the handler of a method
 * (wasmquery/config.go and server/wasm/config.go each carry a copy of it).
 */
module GrpcNames {

  datatype MethodDescriptor = MethodDescriptor(name: string, inputType: string, outputType: string, serverStreaming: bool)

  datatype ServiceDescriptor = ServiceDescriptor(name: string, methods: seq<MethodDescriptor>)

  datatype FileDescriptor = FileDescriptor(package: string, services: seq<ServiceDescriptor>)

  /** "<scope>.<name>", as fmt.Sprintf("%s.%s", ...) builds it. */
  function Qualified(scope: string, name: string): (r: string)
    ensures |r| == |scope| + 1 + |name| && r[|scope|] == '.'
    ensures r[..|scope|] == scope && r[|scope| + 1..] == name
  {
    scope + "." + name
  }

  /** Service `k` of the file is the first whose fully qualified name is `fq`. */
  predicate FirstMatch(file: FileDescriptor, fq: string, k: int) {
    0 <= k < |file.services|
    && Qualified(file.package, file.services[k].name) == fq
    && forall j :: 0 <= j < k ==> Qualified(file.package, file.services[j].name) != fq
  }

  /** At most one service is the first to match. */
  lemma FirstMatchUnique(file: FileDescriptor, fq: string, k: int, k': int)
    requires FirstMatch(file, fq, k) && FirstMatch(file, fq, k')
    ensures k == k'
  {
  }

  /** No service of the file has the fully qualified name `fq`. */
  predicate NoMatch(file: FileDescriptor, fq: string) {
    forall j :: 0 <= j < |file.services| ==> Qualified(file.package, file.services[j].name) != fq
  }

  /** strings.Replace(s, from, to, -1) for single characters: every occurrence is replaced. */
  function ReplaceAll(s: string, from: char, to: char): (r: string)
    ensures |r| == |s|
    ensures forall i :: 0 <= i < |s| ==> r[i] == if s[i] == from then to else s[i]
  {
    if s == [] then []
    else [if s[0] == from then to else s[0]] + ReplaceAll(s[1..], from, to)
  }

  function LowerChar(c: char): char {
    if 'A' <= c <= 'Z' then (c as int + 32) as char else c
  }

  predicate IsUpper(c: char) {
    'A' <= c <= 'Z'
  }

  /** strings.ToLower on ASCII text: every capital letter becomes its small letter. */
  function ToLower(s: string): (r: string)
    ensures |r| == |s|
    ensures forall i :: 0 <= i < |s| ==> r[i] == LowerChar(s[i])
  {
    if s == [] then [] else [LowerChar(s[0])] + ToLower(s[1..])
  }

  /** What one character of a method name becomes in its export name. */
  function ExportChar(c: char): char {
    if c == '.' || c == '/' then '_' else LowerChar(c)
  }

  /**
   * The export name of a method, character by character: '.' and '/'
   * become '_' and capital letters become small ones.
   */
  function ExportName(fqMethod: string): (r: string)
    ensures |r| == |fqMethod|
  {
    seq(|fqMethod|, i requires 0 <= i < |fqMethod| => ExportChar(fqMethod[i]))
  }

  /**
   * exportNameFromFQGrpcMethod: replace every '.' by '_', then every '/'
   * by '_', then lowercase; the result is the character-by-character
   * export name.
   */
  lemma ExportNameIsReplaceThenLower(fqMethod: string)
    ensures ToLower(ReplaceAll(ReplaceAll(fqMethod, '.', '_'), '/', '_')) == ExportName(fqMethod)
  {
  }

  /** No separator and no capital letter is left in an export name. */
  lemma ExportNameIsClean(fqMethod: string)
    ensures '.' !in ExportName(fqMethod) && '/' !in ExportName(fqMethod)
    ensures forall i :: 0 <= i < |fqMethod| ==> !IsUpper(ExportName(fqMethod)[i])
  {
  }

  /** An export name is its own export name. */
  lemma ExportNameIdempotent(fqMethod: string)
    ensures ExportName(ExportName(fqMethod)) == ExportName(fqMethod)
  {
    var e := ExportName(fqMethod);
    forall i | 0 <= i < |e| ensures ExportName(e)[i] == e[i] {
    }
  }

  /** The export name of a concatenation is the concatenation of the export names. */
  lemma ExportNameConcat(a: string, b: string)
    ensures ExportName(a + b) == ExportName(a) + ExportName(b)
  {
    var l, r := ExportName(a + b), ExportName(a) + ExportName(b);
    forall i | 0 <= i < |a| ensures l[i] == r[i] {
      assert (a + b)[i] == a[i];
    }
    forall i | |a| <= i < |l| ensures l[i] == r[i] {
      assert (a + b)[i] == b[i - |a|];
    }
  }

  predicate IsLowerWord(s: string) {
    forall i :: 0 <= i < |s| ==> 'a' <= s[i] <= 'z' || '0' <= s[i] <= '9'
  }

  /** Small letters and digits are kept as they are. */
  lemma ExportNameKeepsLowerWord(s: string)
    requires IsLowerWord(s)
    ensures ExportName(s) == s
  {
  }

  /** The export name of a qualified name joins the export names of its parts with '_'. */
  lemma ExportNameOfQualified(scope: string, name: string)
    ensures ExportName(Qualified(scope, name)) == ExportName(scope) + "_" + ExportName(name)
  {
    ExportNameConcat(scope, "." + name);
    ExportNameConcat(".", name);
    assert ExportName(".") == "_";
  }

  lemma ExportNameOfCapitalised(first: char, rest: string)
    requires 'A' <= first <= 'Z' && IsLowerWord(rest)
    ensures ExportName([first] + rest) == [LowerChar(first)] + rest
  {
    ExportNameConcat([first], rest);
    ExportNameKeepsLowerWord(rest);
  }

  lemma ExportNameOfExamplePackage()
    ensures ExportName("sf.mycustomer.v1") == "sf_mycustomer_v1"
  {
    ExportNameKeepsLowerWord("sf");
    ExportNameKeepsLowerWord("mycustomer");
    ExportNameKeepsLowerWord("v1");
    ExportNameOfQualified("sf", "mycustomer");
    ExportNameOfQualified("sf.mycustomer", "v1");
  }

  lemma ExportNameOfExampleMethod()
    ensures ExportName("Eth.Transfers") == "eth_transfers"
  {
    ExportNameOfCapitalised('E', "th");
    ExportNameOfCapitalised('T', "ransfers");
    assert ['E'] + "th" == "Eth" && ['T'] + "ransfers" == "Transfers";
    ExportNameOfQualified("Eth", "Transfers");
  }

  /** The documented example: a dotted method name becomes its underscored, lowercased form. */
  lemma ExportNameExample()
    ensures ExportName("sf.mycustomer.v1.Eth.Transfers") == "sf_mycustomer_v1_eth_transfers"
  {
    ExportNameOfExamplePackage();
    ExportNameOfExampleMethod();
    ExportNameOfQualified("sf.mycustomer.v1", "Eth.Transfers");
  }

  /** Two methods whose names differ only in case share one export name. */
  lemma ExportNameFoldsCase()
    ensures ExportName(Qualified("a.S", "Get")) == ExportName(Qualified("a.S", "get"))
  {
    assert Qualified("a.S", "Get") == "a.S." + ("G" + "et");
    assert Qualified("a.S", "get") == "a.S." + ("g" + "et");
    ExportNameConcat("a.S.", "G" + "et");
    ExportNameConcat("a.S.", "g" + "et");
    ExportNameConcat("G", "et");
    ExportNameConcat("g", "et");
    assert ExportName("G") == "g";
    ExportNameKeepsLowerWord("g");
  }
}
