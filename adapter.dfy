/**
 * The node-adapter capability of src/ipfs/adapter.ts. Every operation talks to an IPFS
 * daemon over the network, so what it answers is not determined by anything the model
 * can see: each reply is chosen arbitrarily, and callers may rely on nothing but its type.
 * No operation fails: both concrete adapters catch every error and answer a fallback.
 */
module Adapter {
  import opened Wrappers

  /** The adapter a node owns: the localhost daemon, or a remote daemon at `url`. */
  datatype NodeAdapter = LocalhostAdapter | RemoteAdapter(url: string) {

    /** Pins `fileHash` on this node and answers the size it reports (0 after a failure). */
    method PinFile(fileHash: string) returns (size: nat)
    {
      size :| true;
    }

    /** Removes the pin of `fileHash` and collects garbage; errors are swallowed. */
    method UnpinFile(fileHash: string)
    {
    }

    /**
     * Answers the size of `fileHash` on this node. The abstract signature promises a
     * number, while the manager still tests the answer against `undefined`; `None`
     * models such an answer, so the reply is any `Option<nat>`.
     */
    method GetFileSize(fileHash: string) returns (size: Option<nat>)
    {
      size :| true;
    }
  }
}
