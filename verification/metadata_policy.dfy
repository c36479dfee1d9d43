/** The metadata policies of a request, shared by the three containers. */
module MetadataPolicies {
  datatype MetadataPolicy = KeepAll | StripAll | PreserveIcc | PreserveExif
}
