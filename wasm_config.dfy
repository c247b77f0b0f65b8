/**
 * The configuration of the WASM connect-web server (server/wasm/config.go):
 * the requested gRPC service is looked up in the proto file, and each of
 * its methods gets its fully qualified name and the export name of its
 * handler. Streaming methods are not checked for here.
 */
module WasmConfig {
  import opened Wrappers
  import opened GrpcNames

  datatype MethodConfig = MethodConfig(name: string, fqGRPCName: string, exportName: string)

  datatype Config = Config(fqGRPCServiceName: string, methods: seq<MethodConfig>)

  datatype ConfigError = ServiceNotFound(fqService: string)

  /** NewConfig: the first service of the file named `fqService`, every method in declaration order. */
  method NewConfig(file: FileDescriptor, fqService: string) returns (r: Result<Config, ConfigError>)
    ensures NoMatch(file, fqService) ==> r == Failure(ServiceNotFound(fqService))
    ensures forall k :: FirstMatch(file, fqService, k) ==>
      r.Success? && r.value.fqGRPCServiceName == fqService
      && |r.value.methods| == |file.services[k].methods|
      && forall i :: 0 <= i < |r.value.methods| ==>
        r.value.methods[i].name == file.services[k].methods[i].name
        && r.value.methods[i].fqGRPCName == Qualified(fqService, file.services[k].methods[i].name)
        && r.value.methods[i].exportName == ExportName(Qualified(fqService, file.services[k].methods[i].name))
  {
    for k := 0 to |file.services|
      invariant forall j :: 0 <= j < k ==> Qualified(file.package, file.services[j].name) != fqService
    {
      var servName := Qualified(file.package, file.services[k].name);
      if servName == fqService {
        forall k' | FirstMatch(file, fqService, k') ensures k' == k {
          FirstMatchUnique(file, fqService, k, k');
        }
        var methods := file.services[k].methods;
        var configs: seq<MethodConfig> := [];
        for i := 0 to |methods|
          invariant |configs| == i
          invariant forall t :: 0 <= t < i ==>
            configs[t].name == methods[t].name
            && configs[t].fqGRPCName == Qualified(servName, methods[t].name)
            && configs[t].exportName == ExportName(Qualified(servName, methods[t].name))
        {
          var fqGRPC := Qualified(servName, methods[i].name);
          configs := configs + [MethodConfig(methods[i].name, fqGRPC, ExportName(fqGRPC))];
        }
        return Success(Config(servName, configs));
      }
    }
    r := Failure(ServiceNotFound(fqService));
  }
}
