/** nm_node_method_t: a non-NULL pointer to a function that takes a node. The engine itself only
    ever calls such functions; what they do is outside the model, so each is an opaque name. */
module Methods {
  datatype Fn =
    | UserFn(id: nat)      // a function supplied by the program using the engine
    | MachineProcessFn     // _node_machine_in_process, the machine root's process hook
    | MachineRenderFn      // _node_machine_in_render, the machine root's render hook
}
