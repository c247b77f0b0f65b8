/**
 * The configuration of the WASM query service (wasmquery/config.go): the
 * requested gRPC service is looked up in the proto file, and each of its
 * methods gets its fully qualified name, the export name of its handler in
 * the WASM module and its connect-web path. Server-streaming methods are
 * not supported.
 */
module QueryConfig {
  import opened Wrappers
  import opened GrpcNames

  datatype MethodConfig = MethodConfig(name: string, fqn: string, exportName: string, connectWebPath: string,
                                       inputType: string, outputType: string)

  datatype ServiceConfig = ServiceConfig(fqn: string, connectWebPath: string, methods: seq<MethodConfig>)

  datatype ConfigError = ServiceNotFound(fqService: string) | StreamingUnsupported(fqMethod: string)

  /** Method `j` is the first server-streaming one. */
  predicate FirstStreaming(methods: seq<MethodDescriptor>, j: int) {
    0 <= j < |methods| && methods[j].serverStreaming
    && forall i :: 0 <= i < j ==> !methods[i].serverStreaming
  }

  predicate NoStreaming(methods: seq<MethodDescriptor>) {
    forall i :: 0 <= i < |methods| ==> !methods[i].serverStreaming
  }

  /**
   * NewServiceConfig: the first service of the file named `fqService`
   * gives the configuration; no such service, or a server-streaming
   * method in it, is an error.
   */
  method NewServiceConfig(file: FileDescriptor, fqService: string) returns (r: Result<ServiceConfig, ConfigError>)
    ensures NoMatch(file, fqService) ==> r == Failure(ServiceNotFound(fqService))
    ensures forall k, j :: FirstMatch(file, fqService, k) && FirstStreaming(file.services[k].methods, j) ==>
      r == Failure(StreamingUnsupported(Qualified(fqService, file.services[k].methods[j].name)))
    ensures forall k :: FirstMatch(file, fqService, k) && NoStreaming(file.services[k].methods) ==>
      r.Success? && r.value.fqn == fqService && r.value.connectWebPath == "/" + fqService + "/"
      && |r.value.methods| == |file.services[k].methods|
      && forall i :: 0 <= i < |r.value.methods| ==>
        r.value.methods[i].name == file.services[k].methods[i].name
        && r.value.methods[i].fqn == Qualified(fqService, file.services[k].methods[i].name)
        && r.value.methods[i].exportName == ExportName(Qualified(fqService, file.services[k].methods[i].name))
        && r.value.methods[i].connectWebPath == "/" + fqService + "/" + file.services[k].methods[i].name
        && r.value.methods[i].inputType == file.services[k].methods[i].inputType
        && r.value.methods[i].outputType == file.services[k].methods[i].outputType
  {
    for k := 0 to |file.services|
      invariant forall j :: 0 <= j < k ==> Qualified(file.package, file.services[j].name) != fqService
    {
      var servName := Qualified(file.package, file.services[k].name);
      if servName == fqService {
        forall k' | FirstMatch(file, fqService, k') ensures k' == k {
          FirstMatchUnique(file, fqService, k, k');
        }
        r := ServiceMethods(servName, file.services[k].methods);
        return;
      }
    }
    r := Failure(ServiceNotFound(fqService));
  }

  /** The method loop of NewServiceConfig for the matching service `fq`. */
  method ServiceMethods(fq: string, methods: seq<MethodDescriptor>) returns (r: Result<ServiceConfig, ConfigError>)
    ensures forall j :: FirstStreaming(methods, j) ==> r == Failure(StreamingUnsupported(Qualified(fq, methods[j].name)))
    ensures NoStreaming(methods) ==>
      r.Success? && r.value.fqn == fq && r.value.connectWebPath == "/" + fq + "/"
      && |r.value.methods| == |methods|
      && forall i :: 0 <= i < |methods| ==>
        r.value.methods[i].name == methods[i].name
        && r.value.methods[i].fqn == Qualified(fq, methods[i].name)
        && r.value.methods[i].exportName == ExportName(Qualified(fq, methods[i].name))
        && r.value.methods[i].connectWebPath == "/" + fq + "/" + methods[i].name
        && r.value.methods[i].inputType == methods[i].inputType
        && r.value.methods[i].outputType == methods[i].outputType
  {
    var configs: seq<MethodConfig> := [];
    for i := 0 to |methods|
      invariant NoStreaming(methods[..i])
      invariant |configs| == i
      invariant forall t :: 0 <= t < i ==>
        configs[t].name == methods[t].name
        && configs[t].fqn == Qualified(fq, methods[t].name)
        && configs[t].exportName == ExportName(Qualified(fq, methods[t].name))
        && configs[t].connectWebPath == "/" + fq + "/" + methods[t].name
        && configs[t].inputType == methods[t].inputType
        && configs[t].outputType == methods[t].outputType
    {
      var m := methods[i];
      var fqGRPC := Qualified(fq, m.name);
      var path := "/" + fq + "/" + m.name;
      if m.serverStreaming {
        assert FirstStreaming(methods, i);
        forall j | FirstStreaming(methods, j) ensures j == i {
        }
        return Failure(StreamingUnsupported(fqGRPC));
      }
      configs := configs + [MethodConfig(m.name, fqGRPC, ExportName(fqGRPC), path, m.inputType, m.outputType)];
      assert forall t :: 0 <= t < i ==> methods[..i + 1][t] == methods[..i][t];
    }
    assert methods[..|methods|] == methods;
    r := Success(ServiceConfig(fq, "/" + fq + "/", configs));
  }

  /** getWASMFunctionNames: the export name of every method, in method order. */
  method WasmFunctionNames(c: ServiceConfig) returns (out: seq<string>)
    ensures |out| == |c.methods|
    ensures forall i :: 0 <= i < |out| ==> out[i] == c.methods[i].exportName
  {
    out := [];
    for i := 0 to |c.methods|
      invariant |out| == i
      invariant forall t :: 0 <= t < i ==> out[t] == c.methods[t].exportName
    {
      out := out + [c.methods[i].exportName];
    }
  }
}
