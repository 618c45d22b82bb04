/** What the fetch and the delete action know of a Kubernetes object. */
module Resources {
  type Labels = map<string, string>

  /** What identifies an object in a cluster. */
  datatype Reference = Reference(kind: string, namespace: string, name: string)

  datatype Resource = Resource(ref: Reference, labels: Labels)
}
