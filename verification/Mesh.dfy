/** The configuration objects the models share. */
module Mesh {

  datatype Option<+T> = None | Some(value: T)

  datatype ObjectKey = ObjectKey(namespace: string, name: string)

  datatype Resolution = NONE | STATIC | DNS | DNS_ROUND_ROBIN

  datatype ServicePort = ServicePort(number: nat, name: string)

  datatype ServiceEntry = ServiceEntry(
    hosts: seq<string>,
    addresses: seq<string>,
    ports: seq<ServicePort>,
    resolution: Resolution)

  /** One config patch: the listener it applies to and the filter it puts there. */
  datatype Patch = Patch(listener: string, proxy: string)

  datatype EnvoyFilter = EnvoyFilter(workloadSelector: map<string, string>, configPatches: seq<Patch>)

  datatype EnvoyFilterWrapper = EnvoyFilterWrapper(name: string, namespace: string, spec: EnvoyFilter)
}
