/** The EGL and GL calls with a lasting effect, recorded in the order the
    modelled code makes them.  A trace of these is how the model states
    which resources a call acquires and releases on each exit path.
 */
module DriverCalls {

  datatype Call =
    | MakeCurrent(display: nat, context: nat)                  // eglMakeCurrent with no surface
    | CreateImage(display: nat, target: int, attribs: seq<int>) // eglCreateImageKHR
    | DestroyImage(display: nat, image: nat)                   // eglDestroyImageKHR
    | GenTexture                                               // glGenTextures + glTexParameteri
    | BindImageTexture(image: nat)                             // glBindTexture + glEGLImageTargetTexture2DOES
    | ReadTexture(glFormat: int, size: nat)                    // glGetTexImage into a buffer of `size` bytes
    | DeleteTexture                                            // glDeleteTextures
}
